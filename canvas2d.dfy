/** The drawing surface a scan canvas owns: a `<canvas>` element together with its
    2D rendering context. Every call the renderer makes on it is recorded, in order,
    as a command, so the log is everything that can be observed of a render. */
module Canvas2D {

  /** One observable call on the surface. `SetSize` stands for the assignment pair
      `canvas.width = w; canvas.height = h`. */
  datatype Command =
    | SetSize(width: real, height: real)
    | ClearRect(x: real, y: real, w: real, h: real)
    | SetFillStyle(color: string)
    | SetGlobalAlpha(alpha: real)
    | FillRect(x: real, y: real, w: real, h: real)

  /** Every `globalAlpha` the log sets lies in (0, 1]. */
  predicate AlphasInUnitRange(log: seq<Command>)
  {
    forall k :: 0 <= k < |log| && log[k].SetGlobalAlpha? ==> 0.0 < log[k].alpha <= 1.0
  }

  /** Every rectangle the log fills lies inside a `width` x `height` surface. */
  predicate FillsInside(log: seq<Command>, width: real, height: real)
  {
    forall k :: 0 <= k < |log| && log[k].FillRect? ==>
      0.0 <= log[k].x && log[k].x + log[k].w <= width &&
      0.0 <= log[k].y && log[k].y + log[k].h <= height
  }

  /** Every `fillRect` comes right after a `globalAlpha` assignment. */
  predicate FillsFollowAlpha(log: seq<Command>)
  {
    forall k :: 0 <= k < |log| && log[k].FillRect? ==> 0 < k && log[k - 1].SetGlobalAlpha?
  }

  /** The three log properties hold of a concatenation when they hold of both parts
      (a fill that opens a log is never preceded by an alpha, so none does). */
  lemma LogPropertiesAppend(a: seq<Command>, b: seq<Command>, width: real, height: real)
    requires AlphasInUnitRange(a) && AlphasInUnitRange(b)
    requires FillsInside(a, width, height) && FillsInside(b, width, height)
    requires FillsFollowAlpha(a) && FillsFollowAlpha(b)
    ensures AlphasInUnitRange(a + b) && FillsInside(a + b, width, height) && FillsFollowAlpha(a + b)
  {
    forall k | 0 <= k < |a + b| && (a + b)[k].FillRect?
      ensures 0 < k && (a + b)[k - 1].SetGlobalAlpha?
    {
      if k >= |a| {
        assert b[k - |a|].FillRect?;
      }
    }
    forall k | 0 <= k < |a + b| && (a + b)[k].SetGlobalAlpha?
      ensures 0.0 < (a + b)[k].alpha <= 1.0
    {
      if k >= |a| {
        assert b[k - |a|].SetGlobalAlpha?;
      }
    }
    forall k | 0 <= k < |a + b| && (a + b)[k].FillRect?
      ensures 0.0 <= (a + b)[k].x && (a + b)[k].x + (a + b)[k].w <= width &&
              0.0 <= (a + b)[k].y && (a + b)[k].y + (a + b)[k].h <= height
    {
      if k >= |a| {
        assert b[k - |a|].FillRect?;
      }
    }
  }

  /** The canvas element and its context, observed through the calls made on them. */
  class Canvas {
    var log: seq<Command>

    constructor ()
      ensures log == []
    {
      log := [];
    }

    method SetSize(width: real, height: real)
      modifies this
      ensures log == old(log) + [Command.SetSize(width, height)]
    {
      log := log + [Command.SetSize(width, height)];
    }

    method ClearRect(x: real, y: real, w: real, h: real)
      modifies this
      ensures log == old(log) + [Command.ClearRect(x, y, w, h)]
    {
      log := log + [Command.ClearRect(x, y, w, h)];
    }

    method SetFillStyle(color: string)
      modifies this
      ensures log == old(log) + [Command.SetFillStyle(color)]
    {
      log := log + [Command.SetFillStyle(color)];
    }

    method SetGlobalAlpha(alpha: real)
      modifies this
      ensures log == old(log) + [Command.SetGlobalAlpha(alpha)]
    {
      log := log + [Command.SetGlobalAlpha(alpha)];
    }

    method FillRect(x: real, y: real, w: real, h: real)
      modifies this
      ensures log == old(log) + [Command.FillRect(x, y, w, h)]
    {
      log := log + [Command.FillRect(x, y, w, h)];
    }
  }
}
