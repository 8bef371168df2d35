/** What one render of the scan canvas promises, proved about its specification
    `RenderSpec`: the early exits, the single clear before any drawing, the
    normalisation against the largest consumed value, the cells drawn, their order,
    opacity and position, and that nothing past the consumed window is read. */
module RenderProperties {
  import opened Canvas2D
  import opened ScanGrid

  // ---------------------------------------------------------------------------
  // Geometry

  /** `|| 8` only replaces 0: a zero pixel size renders with cells of 8, and only a
      negative one takes the early return. */
  lemma CellSizeDefault(width: real, height: real, pixelSize: real)
    ensures pixelSize == 0.0 ==> EffectiveCellSize(pixelSize) == 8.0
    ensures Degenerate(width, height, pixelSize) <==> (width <= 0.0 || height <= 0.0 || pixelSize < 0.0)
  {
  }

  /** The early return: a render leaves only a 0 x 0 resize exactly when the width,
      the height or the defaulted pixel size is not positive. */
  lemma DegenerateOnlyResizes(width: real, height: real, pixelSize: real, baseColor: string, pixels: seq<Number>)
    ensures RenderSpec(width, height, pixelSize, baseColor, pixels) == [SetSize(0.0, 0.0)]
        <==> Degenerate(width, height, pixelSize)
  {
    if !Degenerate(width, height, pixelSize) {
      var r := RenderSpec(width, height, pixelSize, baseColor, pixels);
      assert r[0] == SetSize(width, height) && width != 0.0;
    }
  }

  /** Whole cells along a side never overrun it. */
  lemma CellsFit(extent: real, cellSize: real)
    requires extent > 0.0 && cellSize > 0.0
    ensures CellsAlong(extent, cellSize) >= 0
    ensures CellsAlong(extent, cellSize) as real * cellSize <= extent
  {
    var n := CellsAlong(extent, cellSize);
    assert n as real <= extent / cellSize;
    ScaleMono(n as real, extent / cellSize, cellSize);
  }

  lemma ScaleMono(a: real, b: real, c: real)
    requires a <= b && c > 0.0
    ensures a * c <= b * c
  {
  }

  /** In a row-major grid of cols x rows cells, cell i < cols*rows is in a row below rows. */
  lemma RowBelow(i: nat, cols: int, rows: int)
    requires cols > 0 && i < cols * rows
    ensures i / cols < rows
  {
    if i / cols >= rows {
      MulMono(rows, i / cols, cols);
      assert false;
    }
  }

  lemma MulMono(a: int, b: int, c: int)
    requires a <= b && c >= 0
    ensures a * c <= b * c
  {
  }

  /** The k-th of n = floor(extent/cellSize) whole cells along a side starts at or
      after 0 and ends at or before the side's end. */
  lemma SpanFits(k: int, extent: real, cellSize: real)
    requires extent > 0.0 && cellSize > 0.0
    requires 0 <= k < CellsAlong(extent, cellSize)
    ensures 0.0 <= k as real * cellSize && k as real * cellSize + cellSize <= extent
  {
    var n := CellsAlong(extent, cellSize);
    CellsFit(extent, cellSize);
    assert k as real + 1.0 <= n as real;
    ScaledSpan(k as real, n as real, extent, cellSize);
  }

  /** A span [a, a + 1) inside [0, n), scaled by c, stays inside [0, n * c]. */
  lemma ScaledSpan(a: real, n: real, extent: real, c: real)
    requires 0.0 <= a && a + 1.0 <= n && n * c <= extent && c > 0.0
    ensures 0.0 <= a * c && a * c + c <= extent
  {
    ScaleMono(0.0, a, c);
    ScaleMono(a + 1.0, n, c);
    assert (a + 1.0) * c == a * c + c;
  }

  /** Cell `i` of a grid of `floor(width/cellSize)` x `floor(height/cellSize)` cells
      lies inside the `width` x `height` canvas. */
  lemma CellInsideCanvas(i: nat, width: real, height: real, cellSize: real)
    requires width > 0.0 && height > 0.0 && cellSize > 0.0
    requires i < CellsAlong(width, cellSize) * CellsAlong(height, cellSize)
    ensures CellsAlong(width, cellSize) > 0
    ensures var cols := CellsAlong(width, cellSize);
      0.0 <= CellX(i, cols, cellSize) && CellX(i, cols, cellSize) + cellSize <= width &&
      0.0 <= CellY(i, cols, cellSize) && CellY(i, cols, cellSize) + cellSize <= height
  {
    var cols := CellsAlong(width, cellSize);
    var rows := CellsAlong(height, cellSize);
    CellsFit(width, cellSize);
    if cols == 0 {
      assert false;
    }
    var col, row := i % cols, i / cols;
    assert CellX(i, cols, cellSize) == col as real * cellSize;
    assert CellY(i, cols, cellSize) == row as real * cellSize;
    RowBelow(i, cols, rows);
    SpanFits(col, width, cellSize);
    SpanFits(row, height, cellSize);
  }

  // ---------------------------------------------------------------------------
  // The scan for the largest value

  /** After visiting [0, k) the scan holds the maximum of 0 and the coerced values:
      no smaller than any of them, and 0 or one of them. */
  lemma {:induction false} MaxPrefixIsMaximum(pixels: seq<Number>, k: nat)
    requires k <= |pixels|
    ensures 0.0 <= MaxPrefix(pixels, k)
    ensures forall i :: 0 <= i < k ==> Coerce(pixels[i]) <= MaxPrefix(pixels, k)
    ensures MaxPrefix(pixels, k) == 0.0 || exists i :: 0 <= i < k && Coerce(pixels[i]) == MaxPrefix(pixels, k)
  {
    if k > 0 {
      MaxPrefixIsMaximum(pixels, k - 1);
    }
  }

  /** The scan ends positive exactly when some visited value is positive. */
  lemma MaxPrefixPositive(pixels: seq<Number>, k: nat)
    requires k <= |pixels|
    ensures MaxPrefix(pixels, k) > 0.0 <==> exists i :: 0 <= i < k && Coerce(pixels[i]) > 0.0
  {
    MaxPrefixIsMaximum(pixels, k);
  }

  /** The scan over [0, k) reads nothing at or past k. */
  lemma {:induction false} MaxPrefixWindow(p: seq<Number>, q: seq<Number>, k: nat)
    requires k <= |p| && k <= |q| && p[..k] == q[..k]
    ensures MaxPrefix(p, k) == MaxPrefix(q, k)
  {
    if k > 0 {
      assert p[..k - 1] == p[..k][..k - 1] && q[..k - 1] == q[..k][..k - 1];
      assert p[k - 1] == p[..k][k - 1] && q[k - 1] == q[..k][k - 1];
      MaxPrefixWindow(p, q, k - 1);
    }
  }

  // ---------------------------------------------------------------------------
  // Opacity

  /** The clamp and the `alpha <= 0` test in the draw loop never change anything:
      for 0 < v <= maxVal the opacity is exactly v / maxVal, it lies in (0, 1], and
      it is 1 for a value equal to the maximum. */
  lemma AlphaIsRatio(v: real, maxVal: real)
    requires 0.0 < v <= maxVal
    ensures Alpha(v, maxVal) == v / maxVal
    ensures 0.0 < Alpha(v, maxVal) <= 1.0
    ensures v == maxVal ==> Alpha(v, maxVal) == 1.0
  {
    assert v / maxVal <= maxVal / maxVal;
  }

  /** Opacity grows strictly with the value below the maximum. */
  lemma AlphaMonotone(v1: real, v2: real, maxVal: real)
    requires 0.0 <= v1 < v2 <= maxVal
    ensures Alpha(v1, maxVal) < Alpha(v2, maxVal)
  {
    AlphaIsRatio(v2, maxVal);
    assert v1 / maxVal < v2 / maxVal;
  }

  // ---------------------------------------------------------------------------
  // The draw loop

  /** One turn of the draw loop draws exactly when the value is positive; with the
      value at most `maxVal` it draws opacity `v / maxVal` and then the cell. */
  lemma CellCommandsSkipsExactlyNonPositive(pixels: seq<Number>, i: nat, cols: int, cellSize: real, maxVal: real)
    requires i < |pixels| && cols > 0 && maxVal > 0.0
    ensures CellCommands(pixels, i, cols, cellSize, maxVal) == [] <==> Coerce(pixels[i]) <= 0.0
    ensures 0.0 < Coerce(pixels[i]) <= maxVal ==>
      CellCommands(pixels, i, cols, cellSize, maxVal)
        == [SetGlobalAlpha(Coerce(pixels[i]) / maxVal),
            FillRect(CellX(i, cols, cellSize), CellY(i, cols, cellSize), cellSize, cellSize)]
  {
    var v := Coerce(pixels[i]);
    if v > 0.0 {
      assert v / maxVal > 0.0;
      if v <= maxVal {
        AlphaIsRatio(v, maxVal);
      }
    }
  }

  /** The drawn indices are exactly the visited indices with a positive value, in
      increasing order. */
  lemma {:induction false} PositiveIndicesExact(pixels: seq<Number>, k: nat)
    requires k <= |pixels|
    ensures var idx := PositiveIndices(pixels, k);
      (forall j1, j2 :: 0 <= j1 < j2 < |idx| ==> idx[j1] < idx[j2]) &&
      (forall i :: 0 <= i < k ==> (i in idx <==> Coerce(pixels[i]) > 0.0))
  {
    if k > 0 {
      PositiveIndicesExact(pixels, k - 1);
      var prev := PositiveIndices(pixels, k - 1);
      var idx := PositiveIndices(pixels, k);
      assert forall x :: x in prev ==> x < k - 1;
      forall i | 0 <= i < k
        ensures i in idx <==> Coerce(pixels[i]) > 0.0
      {
        if i < k - 1 {
          assert i in idx <==> i in prev;
        }
      }
    }
  }

  /** The two calls that draw cell i: its opacity, its value over the maximum, then
      the cell itself. */
  ghost function CellPair(pixels: seq<Number>, i: nat, cols: int, cellSize: real, maxVal: real): seq<Command>
    requires i < |pixels| && cols > 0 && maxVal > 0.0
  {
    [SetGlobalAlpha(Coerce(pixels[i]) / maxVal), FillRect(CellX(i, cols, cellSize), CellY(i, cols, cellSize), cellSize, cellSize)]
  }

  /** The cells listed in `idx` drawn one after another, in that order. */
  ghost function CellPairs(pixels: seq<Number>, idx: seq<nat>, cols: int, cellSize: real, maxVal: real): seq<Command>
    requires forall j :: 0 <= j < |idx| ==> idx[j] < |pixels|
    requires cols > 0 && maxVal > 0.0
  {
    if idx == [] then []
    else CellPairs(pixels, idx[..|idx| - 1], cols, cellSize, maxVal) + CellPair(pixels, idx[|idx| - 1], cols, cellSize, maxVal)
  }

  /** Entry 2j of the drawing of `idx` is the opacity of cell idx[j], entry 2j+1 the
      cell itself. */
  lemma {:induction false} CellPairsAt(pixels: seq<Number>, idx: seq<nat>, cols: int, cellSize: real, maxVal: real)
    requires forall j :: 0 <= j < |idx| ==> idx[j] < |pixels|
    requires cols > 0 && maxVal > 0.0
    ensures |CellPairs(pixels, idx, cols, cellSize, maxVal)| == 2 * |idx|
    ensures forall j :: 0 <= j < |idx| ==>
      CellPairs(pixels, idx, cols, cellSize, maxVal)[2 * j] == CellPair(pixels, idx[j], cols, cellSize, maxVal)[0] &&
      CellPairs(pixels, idx, cols, cellSize, maxVal)[2 * j + 1] == CellPair(pixels, idx[j], cols, cellSize, maxVal)[1]
  {
    if idx != [] {
      var init := idx[..|idx| - 1];
      CellPairsAt(pixels, init, cols, cellSize, maxVal);
      var prev := CellPairs(pixels, init, cols, cellSize, maxVal);
      var d := CellPairs(pixels, idx, cols, cellSize, maxVal);
      var last := CellPair(pixels, idx[|idx| - 1], cols, cellSize, maxVal);
      assert d == prev + last;
      forall j | 0 <= j < |idx|
        ensures d[2 * j] == CellPair(pixels, idx[j], cols, cellSize, maxVal)[0]
        ensures d[2 * j + 1] == CellPair(pixels, idx[j], cols, cellSize, maxVal)[1]
      {
        if j < |init| {
          assert idx[j] == init[j] && d[2 * j] == prev[2 * j] && d[2 * j + 1] == prev[2 * j + 1];
        } else {
          assert d[2 * j] == last[0] && d[2 * j + 1] == last[1];
        }
      }
    }
  }

  /** With every visited value at most `maxVal`, the draw loop over [0, k) draws
      exactly the positive indices, each as its cell pair. */
  lemma {:induction false} DrawPrefixIsCellPairs(pixels: seq<Number>, k: nat, cols: int, cellSize: real, maxVal: real)
    requires k <= |pixels| && cols > 0 && maxVal > 0.0
    requires forall i :: 0 <= i < k ==> Coerce(pixels[i]) <= maxVal
    ensures DrawPrefix(pixels, k, cols, cellSize, maxVal)
         == CellPairs(pixels, PositiveIndices(pixels, k), cols, cellSize, maxVal)
  {
    if k > 0 {
      DrawPrefixIsCellPairs(pixels, k - 1, cols, cellSize, maxVal);
      var prevIdx := PositiveIndices(pixels, k - 1);
      var idx := PositiveIndices(pixels, k);
      var v := Coerce(pixels[k - 1]);
      assert DrawPrefix(pixels, k, cols, cellSize, maxVal)
          == DrawPrefix(pixels, k - 1, cols, cellSize, maxVal) + CellCommands(pixels, k - 1, cols, cellSize, maxVal);
      if v > 0.0 {
        AlphaIsRatio(v, maxVal);
        assert CellCommands(pixels, k - 1, cols, cellSize, maxVal) == CellPair(pixels, k - 1, cols, cellSize, maxVal);
        assert idx == prevIdx + [k - 1];
        assert idx != [] && idx[..|idx| - 1] == prevIdx && idx[|idx| - 1] == k - 1;
        assert CellPairs(pixels, idx, cols, cellSize, maxVal)
            == CellPairs(pixels, prevIdx, cols, cellSize, maxVal) + CellPair(pixels, k - 1, cols, cellSize, maxVal);
      } else {
        assert CellCommands(pixels, k - 1, cols, cellSize, maxVal) == [];
        assert DrawPrefix(pixels, k, cols, cellSize, maxVal) == DrawPrefix(pixels, k - 1, cols, cellSize, maxVal);
        assert idx == prevIdx;
      }
    }
  }

  /** With every visited value at most `maxVal`, the draw loop's calls over [0, k)
      are, for each positive index in turn, its opacity `v / maxVal` and then its
      cell. */
  lemma DrawPrefixShape(pixels: seq<Number>, k: nat, cols: int, cellSize: real, maxVal: real)
    requires k <= |pixels| && cols > 0 && maxVal > 0.0
    requires forall i :: 0 <= i < k ==> Coerce(pixels[i]) <= maxVal
    ensures |DrawPrefix(pixels, k, cols, cellSize, maxVal)| == 2 * |PositiveIndices(pixels, k)|
    ensures forall j :: 0 <= j < |PositiveIndices(pixels, k)| ==>
      DrawPrefix(pixels, k, cols, cellSize, maxVal)[2 * j]
        == SetGlobalAlpha(Coerce(pixels[PositiveIndices(pixels, k)[j]]) / maxVal) &&
      DrawPrefix(pixels, k, cols, cellSize, maxVal)[2 * j + 1]
        == FillRect(CellX(PositiveIndices(pixels, k)[j], cols, cellSize),
                    CellY(PositiveIndices(pixels, k)[j], cols, cellSize), cellSize, cellSize)
  {
    DrawPrefixIsCellPairs(pixels, k, cols, cellSize, maxVal);
    CellPairsAt(pixels, PositiveIndices(pixels, k), cols, cellSize, maxVal);
  }

  /** The draw loop over [0, k) sets only opacities in (0, 1], fills only cells
      inside the canvas, and sets an opacity right before each fill. */
  lemma {:induction false} DrawPrefixWellFormed(pixels: seq<Number>, k: nat, width: real, height: real, cellSize: real, maxVal: real)
    requires width > 0.0 && height > 0.0 && cellSize > 0.0 && maxVal > 0.0
    requires k <= |pixels| && k <= CellsAlong(width, cellSize) * CellsAlong(height, cellSize)
    requires CellsAlong(width, cellSize) > 0
    ensures var d := DrawPrefix(pixels, k, CellsAlong(width, cellSize), cellSize, maxVal);
      AlphasInUnitRange(d) && FillsInside(d, width, height) && FillsFollowAlpha(d)
  {
    if k > 0 {
      var cols := CellsAlong(width, cellSize);
      DrawPrefixWellFormed(pixels, k - 1, width, height, cellSize, maxVal);
      CellInsideCanvas(k - 1, width, height, cellSize);
      LogPropertiesAppend(DrawPrefix(pixels, k - 1, cols, cellSize, maxVal),
                          CellCommands(pixels, k - 1, cols, cellSize, maxVal), width, height);
    }
  }

  /** The draw loop issues only opacity and fill calls. */
  lemma {:induction false} DrawPrefixOnlyDraws(pixels: seq<Number>, k: nat, cols: int, cellSize: real, maxVal: real)
    requires k <= |pixels| && cols > 0 && maxVal > 0.0
    ensures forall n :: 0 <= n < |DrawPrefix(pixels, k, cols, cellSize, maxVal)| ==>
      DrawPrefix(pixels, k, cols, cellSize, maxVal)[n].SetGlobalAlpha? || DrawPrefix(pixels, k, cols, cellSize, maxVal)[n].FillRect?
  {
    if k > 0 {
      DrawPrefixOnlyDraws(pixels, k - 1, cols, cellSize, maxVal);
      var prev := DrawPrefix(pixels, k - 1, cols, cellSize, maxVal);
      var cell := CellCommands(pixels, k - 1, cols, cellSize, maxVal);
      assert cell == [] || (|cell| == 2 && cell[0].SetGlobalAlpha? && cell[1].FillRect?);
      var d: seq<Command> := prev + cell;
      assert d == DrawPrefix(pixels, k, cols, cellSize, maxVal);
      forall n | 0 <= n < |d|
        ensures d[n].SetGlobalAlpha? || d[n].FillRect?
      {
        if n < |prev| {
          assert d[n] == prev[n];
        } else {
          assert d[n] == cell[n - |prev|];
        }
      }
    }
  }

  /** The draw loop over [0, k) reads nothing at or past k. */
  lemma {:induction false} DrawPrefixWindow(p: seq<Number>, q: seq<Number>, k: nat, cols: int, cellSize: real, maxVal: real)
    requires k <= |p| && k <= |q| && p[..k] == q[..k] && cols > 0 && maxVal > 0.0
    ensures DrawPrefix(p, k, cols, cellSize, maxVal) == DrawPrefix(q, k, cols, cellSize, maxVal)
  {
    if k > 0 {
      assert p[..k - 1] == p[..k][..k - 1] && q[..k - 1] == q[..k][..k - 1];
      assert p[k - 1] == p[..k][k - 1] && q[k - 1] == q[..k][k - 1];
      DrawPrefixWindow(p, q, k - 1, cols, cellSize, maxVal);
    }
  }

  // ---------------------------------------------------------------------------
  // A whole render

  /** Past the early return, the canvas is sized to width x height and then cleared
      once, before anything else; every later call is a fill colour, an opacity or
      a fill. */
  lemma SizesThenClearsOnce(width: real, height: real, pixelSize: real, baseColor: string, pixels: seq<Number>)
    requires !Degenerate(width, height, pixelSize)
    ensures var r := RenderSpec(width, height, pixelSize, baseColor, pixels);
      |r| >= 2 && r[0] == SetSize(width, height) && r[1] == ClearRect(0.0, 0.0, width, height) &&
      forall n :: 2 <= n < |r| ==> r[n].SetFillStyle? || r[n].SetGlobalAlpha? || r[n].FillRect?
  {
    var cellSize := EffectiveCellSize(pixelSize);
    var cols := CellsAlong(width, cellSize);
    var rows := CellsAlong(height, cellSize);
    if cols > 0 && rows > 0 && cols * rows > 0 {
      var len := Min(|pixels|, cols * rows);
      var maxVal := MaxPrefix(pixels, len);
      if maxVal > 0.0 {
        DrawPrefixOnlyDraws(pixels, len, cols, cellSize, maxVal);
      }
    }
  }

  /** A grid with no whole column or no whole row consumes no value and draws
      nothing after the clear. */
  lemma EmptyGridOnlyClears(width: real, height: real, pixelSize: real, baseColor: string, pixels: seq<Number>)
    requires !Degenerate(width, height, pixelSize)
    requires CellsAlong(width, EffectiveCellSize(pixelSize)) <= 0 || CellsAlong(height, EffectiveCellSize(pixelSize)) <= 0
    ensures ConsumedCount(width, height, pixelSize, pixels) == 0
    ensures RenderSpec(width, height, pixelSize, baseColor, pixels)
        == [SetSize(width, height), ClearRect(0.0, 0.0, width, height)]
  {
  }

  /** Past the early return, a render stops at the clear (no fill colour, no opacity,
      no fill) exactly when no consumed value is positive. */
  lemma OnlyClearsIffNothingPositive(width: real, height: real, pixelSize: real, baseColor: string, pixels: seq<Number>)
    requires !Degenerate(width, height, pixelSize)
    ensures RenderSpec(width, height, pixelSize, baseColor, pixels)
        == [SetSize(width, height), ClearRect(0.0, 0.0, width, height)]
        <==> forall i :: 0 <= i < ConsumedCount(width, height, pixelSize, pixels) ==> Coerce(pixels[i]) <= 0.0
  {
    var n := ConsumedCount(width, height, pixelSize, pixels);
    var head := [SetSize(width, height), ClearRect(0.0, 0.0, width, height)];
    var r := RenderSpec(width, height, pixelSize, baseColor, pixels);
    if exists i :: 0 <= i < n && Coerce(pixels[i]) > 0.0 {
      DrawingRenderSplits(width, height, pixelSize, baseColor, pixels);
      assert |r| != |head|;
    } else {
      var cellSize := EffectiveCellSize(pixelSize);
      var cols := CellsAlong(width, cellSize);
      var rows := CellsAlong(height, cellSize);
      assert r == head + GridCommands(cols, rows, cellSize, baseColor, pixels);
      if cols > 0 && rows > 0 && cols * rows > 0 {
        assert n == Min(|pixels|, cols * rows);
        MaxPrefixPositive(pixels, n);
        assert MaxPrefix(pixels, n) <= 0.0;
      }
      assert GridCommands(cols, rows, cellSize, baseColor, pixels) == [];
    }
  }

  /** When some consumed value is positive, the grid has columns, the scan ends
      positive, and a render is size, clear, fill colour, the draw loop's calls and
      the opacity reset. */
  lemma DrawingRenderSplits(width: real, height: real, pixelSize: real, baseColor: string, pixels: seq<Number>)
    requires !Degenerate(width, height, pixelSize)
    requires exists i :: 0 <= i < ConsumedCount(width, height, pixelSize, pixels) && Coerce(pixels[i]) > 0.0
    ensures CellsAlong(width, EffectiveCellSize(pixelSize)) > 0
    ensures MaxPrefix(pixels, ConsumedCount(width, height, pixelSize, pixels)) > 0.0
    ensures RenderSpec(width, height, pixelSize, baseColor, pixels)
         == [SetSize(width, height), ClearRect(0.0, 0.0, width, height), SetFillStyle(baseColor)] +
            DrawPrefix(pixels, ConsumedCount(width, height, pixelSize, pixels),
                       CellsAlong(width, EffectiveCellSize(pixelSize)), EffectiveCellSize(pixelSize),
                       MaxPrefix(pixels, ConsumedCount(width, height, pixelSize, pixels))) +
            [SetGlobalAlpha(1.0)]
  {
    var n := ConsumedCount(width, height, pixelSize, pixels);
    var cellSize := EffectiveCellSize(pixelSize);
    var cols := CellsAlong(width, cellSize);
    var rows := CellsAlong(height, cellSize);
    assert n > 0;
    assert cols > 0 && rows > 0 && cols * rows > 0 && n == Min(|pixels|, cols * rows);
    MaxPrefixPositive(pixels, n);
    var maxVal := MaxPrefix(pixels, n);
    assert RenderSpec(width, height, pixelSize, baseColor, pixels)
        == [SetSize(width, height), ClearRect(0.0, 0.0, width, height)] + GridCommands(cols, rows, cellSize, baseColor, pixels);
    assert GridCommands(cols, rows, cellSize, baseColor, pixels)
        == [SetFillStyle(baseColor)] + DrawPrefix(pixels, n, cols, cellSize, maxVal) + [SetGlobalAlpha(1.0)];
  }

  /** When some consumed value is positive, a render is: size, clear, fill colour,
      then for each consumed index with a positive value, in increasing order, its
      opacity (its value over the largest consumed value) followed by its cell, and
      finally the opacity reset to 1. */
  lemma DrawsPositiveCells(width: real, height: real, pixelSize: real, baseColor: string, pixels: seq<Number>)
    requires !Degenerate(width, height, pixelSize)
    requires exists i :: 0 <= i < ConsumedCount(width, height, pixelSize, pixels) && Coerce(pixels[i]) > 0.0
    ensures CellsAlong(width, EffectiveCellSize(pixelSize)) > 0
    ensures MaxPrefix(pixels, ConsumedCount(width, height, pixelSize, pixels)) > 0.0
    ensures RenderSpec(width, height, pixelSize, baseColor, pixels)
         == [SetSize(width, height), ClearRect(0.0, 0.0, width, height), SetFillStyle(baseColor)] +
            CellPairs(pixels, PositiveIndices(pixels, ConsumedCount(width, height, pixelSize, pixels)),
                      CellsAlong(width, EffectiveCellSize(pixelSize)), EffectiveCellSize(pixelSize),
                      MaxPrefix(pixels, ConsumedCount(width, height, pixelSize, pixels))) +
            [SetGlobalAlpha(1.0)]
  {
    DrawingRenderSplits(width, height, pixelSize, baseColor, pixels);
    var n := ConsumedCount(width, height, pixelSize, pixels);
    MaxPrefixIsMaximum(pixels, n);
    DrawPrefixIsCellPairs(pixels, n, CellsAlong(width, EffectiveCellSize(pixelSize)), EffectiveCellSize(pixelSize), MaxPrefix(pixels, n));
  }

  /** Every render sets only opacities in (0, 1], fills only inside the width x
      height canvas, and sets an opacity right before each fill. */
  lemma RenderWellFormed(width: real, height: real, pixelSize: real, baseColor: string, pixels: seq<Number>)
    ensures var r := RenderSpec(width, height, pixelSize, baseColor, pixels);
      AlphasInUnitRange(r) && FillsInside(r, width, height) && FillsFollowAlpha(r)
  {
    var r := RenderSpec(width, height, pixelSize, baseColor, pixels);
    var n := ConsumedCount(width, height, pixelSize, pixels);
    if Degenerate(width, height, pixelSize) {
      assert r == [SetSize(0.0, 0.0)];
    } else if exists i :: 0 <= i < n && Coerce(pixels[i]) > 0.0 {
      DrawingRenderSplits(width, height, pixelSize, baseColor, pixels);
      var cellSize := EffectiveCellSize(pixelSize);
      var cols := CellsAlong(width, cellSize);
      var rows := CellsAlong(height, cellSize);
      var maxVal := MaxPrefix(pixels, n);
      var head := [SetSize(width, height), ClearRect(0.0, 0.0, width, height), SetFillStyle(baseColor)];
      var d := DrawPrefix(pixels, n, cols, cellSize, maxVal);
      assert r == head + d + [SetGlobalAlpha(1.0)];
      assert n <= cols * rows;
      DrawPrefixWellFormed(pixels, n, width, height, cellSize, maxVal);
      LogPropertiesAppend(head, d, width, height);
      LogPropertiesAppend(head + d, [SetGlobalAlpha(1.0)], width, height);
    } else {
      OnlyClearsIffNothingPositive(width, height, pixelSize, baseColor, pixels);
      assert r == [SetSize(width, height), ClearRect(0.0, 0.0, width, height)];
    }
  }

  /** Two pixel lists that agree on the consumed window render identically: entries
      at or past `min(pixels.length, cols*rows)` never matter. */
  lemma RenderReadsOnlyConsumed(width: real, height: real, pixelSize: real, baseColor: string, p: seq<Number>, q: seq<Number>)
    requires ConsumedCount(width, height, pixelSize, p) == ConsumedCount(width, height, pixelSize, q)
    requires p[..ConsumedCount(width, height, pixelSize, p)] == q[..ConsumedCount(width, height, pixelSize, q)]
    ensures RenderSpec(width, height, pixelSize, baseColor, p) == RenderSpec(width, height, pixelSize, baseColor, q)
  {
    var n := ConsumedCount(width, height, pixelSize, p);
    if !Degenerate(width, height, pixelSize) {
      var cellSize := EffectiveCellSize(pixelSize);
      var cols := CellsAlong(width, cellSize);
      var rows := CellsAlong(height, cellSize);
      if cols > 0 && rows > 0 && cols * rows > 0 {
        MaxPrefixWindow(p, q, n);
        var maxVal := MaxPrefix(p, n);
        if maxVal > 0.0 {
          DrawPrefixWindow(p, q, n, cols, cellSize, maxVal);
        }
      }
    }
  }

  /** Rendering the whole list is rendering its consumed window alone. */
  lemma RenderTruncates(width: real, height: real, pixelSize: real, baseColor: string, pixels: seq<Number>)
    ensures var n := ConsumedCount(width, height, pixelSize, pixels);
      RenderSpec(width, height, pixelSize, baseColor, pixels) == RenderSpec(width, height, pixelSize, baseColor, pixels[..n])
  {
    var n := ConsumedCount(width, height, pixelSize, pixels);
    assert pixels[..n][..n] == pixels[..n];
    RenderReadsOnlyConsumed(width, height, pixelSize, baseColor, pixels, pixels[..n]);
  }

  // ---------------------------------------------------------------------------
  // Worked examples

  /** A 16 x 16 canvas with 8-pixel cells and values [4, 0, 0, 8]: the largest is 8,
      cell 0 is drawn at half opacity at (0, 0), cell 3 fully opaque at (8, 8). */
  lemma TwoByTwoExample(color: string)
    ensures RenderSpec(16.0, 16.0, 8.0, color, [Finite(4.0), Finite(0.0), Finite(0.0), Finite(8.0)])
        == [SetSize(16.0, 16.0), ClearRect(0.0, 0.0, 16.0, 16.0), SetFillStyle(color),
            SetGlobalAlpha(0.5), FillRect(0.0, 0.0, 8.0, 8.0),
            SetGlobalAlpha(1.0), FillRect(8.0, 8.0, 8.0, 8.0),
            SetGlobalAlpha(1.0)]
  {
    var p := [Finite(4.0), Finite(0.0), Finite(0.0), Finite(8.0)];
    assert CellsAlong(16.0, 8.0) == 2;
    assert MaxPrefix(p, 4) == 8.0;
  }

  /** Pixel size 0 falls back to 8; values [10, 5, NaN, 2] draw cell 0 at (0, 0) fully
      opaque, cell 1 at (8, 0) at opacity 0.5 and cell 3 at (8, 8) at opacity 0.2, and
      skip the NaN. With two columns, index 3 is column 1 of row 1. */
  lemma DefaultCellSizeExample(color: string)
    ensures RenderSpec(16.0, 16.0, 0.0, color, [Finite(10.0), Finite(5.0), NaN, Finite(2.0)])
        == [SetSize(16.0, 16.0), ClearRect(0.0, 0.0, 16.0, 16.0), SetFillStyle(color),
            SetGlobalAlpha(1.0), FillRect(0.0, 0.0, 8.0, 8.0),
            SetGlobalAlpha(0.5), FillRect(8.0, 0.0, 8.0, 8.0),
            SetGlobalAlpha(0.2), FillRect(8.0, 8.0, 8.0, 8.0),
            SetGlobalAlpha(1.0)]
  {
    var p := [Finite(10.0), Finite(5.0), NaN, Finite(2.0)];
    assert EffectiveCellSize(0.0) == 8.0;
    assert CellsAlong(16.0, 8.0) == 2;
    assert MaxPrefix(p, 4) == 10.0;
    assert Alpha(10.0, 10.0) == 1.0 && Alpha(5.0, 10.0) == 0.5 && Alpha(2.0, 10.0) == 0.2;
    assert DrawPrefix(p, 1, 2, 8.0, 10.0) == [SetGlobalAlpha(1.0), FillRect(0.0, 0.0, 8.0, 8.0)];
    assert DrawPrefix(p, 2, 2, 8.0, 10.0) == DrawPrefix(p, 1, 2, 8.0, 10.0) + [SetGlobalAlpha(0.5), FillRect(8.0, 0.0, 8.0, 8.0)];
    assert DrawPrefix(p, 3, 2, 8.0, 10.0) == DrawPrefix(p, 2, 2, 8.0, 10.0);
    assert DrawPrefix(p, 4, 2, 8.0, 10.0) == DrawPrefix(p, 3, 2, 8.0, 10.0) + [SetGlobalAlpha(0.2), FillRect(8.0, 8.0, 8.0, 8.0)];
  }
}
