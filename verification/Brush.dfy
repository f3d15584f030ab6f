/** The drawing operations of the brush: horizontal runs, lines and circles over a frame buffer. */
module Brushes {
  import opened Integers
  import opened Words
  import opened FrameBuffers
  import Line = LineGeometry
  import Circle = CircleGeometry

  /** Coordinates and radii below this keep the line and circle arithmetic inside 32 bits. */
  const COORDINATE_LIMIT := 0x2000_0000

  lemma MaxBelowSum(x: nat, y: nat)
    ensures 0 <= Max(x, y) <= x + y
  {
  }

  lemma WordRange()
    ensures TWO31 == 4 * COORDINATE_LIMIT && COORDINATE_LIMIT > 1
  {
  }

  class Brush {
    const frame: FrameBuffer

    constructor (frame: FrameBuffer)
      ensures this.frame == frame
    {
      this.frame := frame;
    }

    /** Fills the run between two columns of one row, either way round, clipped to the frame. */
    method DrawHLine(x1: UInt32, x2: UInt32, y: UInt32, color: UInt32)
      requires frame.Valid()
      modifies frame.backBuffer
      ensures forall px, py | frame.InFrame(px, py) ::
                frame.At(px, py) ==
                if py == y && (x1 <= px <= x2 || x2 <= px <= x1) then color else old(frame.At(px, py))
    {
      var width, height := frame.width, frame.height;
      if y >= height {
        return;
      }
      var from, to := x1, x2;
      if from > to {
        var temp := from;
        from := to;
        to := temp;
      }
      if from >= width {
        return;
      }
      if to >= width {
        to := width - 1;
      }
      var x := from;
      while x <= to
        invariant from <= x <= to + 1
        invariant forall px, py | frame.InFrame(px, py) ::
                    frame.At(px, py) == if py == y && from <= px < x then color else old(frame.At(px, py))
      {
        frame.IndexOfPixel(x, y);
        label before:
        frame.backBuffer[y * width + x] := color;
        forall px, py | frame.InFrame(px, py)
          ensures frame.At(px, py) == if (px, py) == (x, y) then color else old@before(frame.At(px, py))
        {
          frame.IndexInjective(px, py, x, y);
          frame.IndexOfPixel(px, py);
        }
        x := x + 1;
      }
    }

    /** Plots a pixel if it is on screen. */
    method PlotClipped(x: Int32, y: Int32, width: UInt16, height: UInt16, color: UInt32)
      requires frame.Valid() && width == frame.width && height == frame.height
      modifies frame.backBuffer
      ensures forall px, py | frame.InFrame(px, py) ::
                frame.At(px, py) == if px == x && py == y then color else old(frame.At(px, py))
    {
      if x >= 0 && x < width && y >= 0 && y < height {
        Plot(x, y, color);
      }
    }

    /** The distance between two coordinates: their 32-bit difference, read as signed and made positive. */
    function Extent(from: UInt32, to: UInt32): (d: Int32)
      requires from < COORDINATE_LIMIT && to < COORDINATE_LIMIT
      ensures d == Abs(to - from) < COORDINATE_LIMIT
    {
      SignedValue(to - from);
      var difference := ToInt32(ToUInt32(to - from));
      if difference < 0 then -difference else difference
    }

    /** Draws a line: exactly its closed-form pixels change, both ends included, clipped to the frame. */
    method DrawLine(x0: UInt32, y0: UInt32, x1: UInt32, y1: UInt32, color: UInt32)
      requires frame.Valid()
      requires x0 < COORDINATE_LIMIT && y0 < COORDINATE_LIMIT && x1 < COORDINATE_LIMIT && y1 < COORDINATE_LIMIT
      modifies frame.backBuffer
      ensures forall px, py | frame.InFrame(px, py) ::
                frame.At(px, py) ==
                if Line.OnLine(Max(Abs(x1 - x0), Abs(y1 - y0)) + 1, x0, y0, x1, y1, px, py)
                then color else old(frame.At(px, py))
    {
      hide *;
      WordRange();
      MaxBelowSum(Abs(x1 - x0), Abs(y1 - y0));
      ghost var moves := Max(Abs(x1 - x0), Abs(y1 - y0));
      var dx := Extent(x0, x1);
      var dy := Extent(y0, y1);
      Line.DirectionIs(x0, x1);
      Line.DirectionIs(y0, y1);
      var sx: Int32 := if x0 < x1 then 1 else -1;
      var sy: Int32 := if y0 < y1 then 1 else -1;
      var err: Int32 := dx - dy;
      var width, height := frame.width, frame.height;
      SignedValue(x0);
      SignedValue(y0);
      var x: Int32 := ToInt32(x0);
      var y: Int32 := ToInt32(y0);
      var maxSteps: Int32 := dx + dy;
      var i: Int32 := 0;
      Line.LoopStarts(x0, y0, x1, y1);
      while i <= maxSteps
        invariant 0 <= i <= moves
        invariant Line.LoopState(i, x0, y0, x1, y1, x, y, err)
        invariant forall px, py | frame.InFrame(px, py) ::
                    frame.At(px, py) ==
                    if Line.OnLine(i, x0, y0, x1, y1, px, py) then color else old(frame.At(px, py))
        decreases moves - i
      {
        Line.LoopBounds(i, x0, y0, x1, y1, x, y, err, COORDINATE_LIMIT);
        Line.LoopStops(i, x0, y0, x1, y1, x, y, err);
        Line.LoopDraws(i, x0, y0, x1, y1, x, y, err);
        PlotClipped(x, y, width, height, color);
        if x == x1 && y == y1 {
          break;
        }
        ghost var x', y', err' := x, y, err;
        var e2: Int32 := 2 * err;
        if e2 > -dy {
          err := err - dy;
          x := x + sx;
        }
        if e2 < dx {
          err := err + dx;
          y := y + sy;
        }
        Line.LoopAdvances(i, x0, y0, x1, y1, x', y', err', x, y, err);
        i := i + 1;
      }
    }

    /** Plots the eight mirror images of one octant point around a centre. */
    method PlotCirclePerimeterPoints(cx: UInt32, cy: UInt32, x: Int32, y: Int32, color: UInt32)
      requires frame.Valid() && 0 <= x && 0 <= y
      requires x <= cx && y <= cx && cx + x < frame.width && cx + y < frame.width
      requires x <= cy && y <= cy && cy + x < frame.height && cy + y < frame.height
      modifies frame.backBuffer
      ensures forall px, py | frame.InFrame(px, py) ::
                frame.At(px, py) ==
                if Circle.Mirrors(x, y, px - cx, py - cy) then color else old(frame.At(px, py))
    {
      PlotMirrored(cx, cy, x, y, color);
      PlotMirrored(cx, cy, y, x, color);
    }

    /** The four plots of (x, y) mirrored along both axes. */
    method PlotMirrored(cx: UInt32, cy: UInt32, x: Int32, y: Int32, color: UInt32)
      requires frame.Valid() && 0 <= x <= cx && 0 <= y <= cy && cx + x < frame.width && cy + y < frame.height
      modifies frame.backBuffer
      ensures forall px, py | frame.InFrame(px, py) ::
                frame.At(px, py) ==
                if Abs(px - cx) == x && Abs(py - cy) == y then color else old(frame.At(px, py))
    {
      UnsignedValue(cx + x);
      UnsignedValue(cx - x);
      UnsignedValue(cy + y);
      UnsignedValue(cy - y);
      hide ToUInt32;
      Plot(ToUInt32(cx + x), ToUInt32(cy + y), color);
      Plot(ToUInt32(cx - x), ToUInt32(cy + y), color);
      Plot(ToUInt32(cx + x), ToUInt32(cy - y), color);
      Plot(ToUInt32(cx - x), ToUInt32(cy - y), color);
    }

    /** drawPixel on a pixel of the frame. */
    method Plot(x: UInt32, y: UInt32, color: UInt32)
      requires frame.Valid() && frame.InFrame(x, y)
      modifies frame.backBuffer
      ensures forall px, py | frame.InFrame(px, py) ::
                frame.At(px, py) == if px == x && py == y then color else old(frame.At(px, py))
    {
      frame.IndexOfPixel(x, y);
      frame.DrawPixel(x, y, color);
    }

    /** Draws the four scanlines of one octant point, with the ends as words give them. */
    method FillCircleSymmetricScanlines(cx: UInt32, cy: UInt32, x: Int32, y: Int32, color: UInt32)
      requires frame.Valid()
      modifies frame.backBuffer
      ensures forall px, py | frame.InFrame(px, py) ::
                frame.At(px, py) == if Circle.Scans(cx, cy, x, y, px, py) then color else old(frame.At(px, py))
    {
      FillMirrored(cx, cy, x, y, color);
      FillMirrored(cx, cy, y, x, color);
    }

    /** The two scanlines of half-width x at distance y above and below the centre. */
    method FillMirrored(cx: UInt32, cy: UInt32, x: Int32, y: Int32, color: UInt32)
      requires frame.Valid()
      modifies frame.backBuffer
      ensures forall px, py | frame.InFrame(px, py) ::
                frame.At(px, py) ==
                if Circle.Fills(cx, x, px) && Circle.OnRow(cy, y, py) then color else old(frame.At(px, py))
    {
      hide ToUInt32;
      DrawHLine(ToUInt32(cx - x), ToUInt32(cx + x), ToUInt32(cy + y), color);
      DrawHLine(ToUInt32(cx - x), ToUInt32(cx + x), ToUInt32(cy - y), color);
    }

    method DrawCircleStep(cx: UInt32, cy: UInt32, x: Int32, y: Int32, color: UInt32, filled: bool)
      requires frame.Valid() && 0 <= x && 0 <= y
      requires filled || OutlineFits(cx, cy, Max(x, y))
      modifies frame.backBuffer
      ensures forall px, py | frame.InFrame(px, py) ::
                frame.At(px, py) ==
                if Circle.Touches(StyleOf(cx, cy, filled), x, y, px - cx, py - cy) then color else old(frame.At(px, py))
    {
      if filled {
        FillCircleSymmetricScanlines(cx, cy, x, y, color);
      } else {
        PlotCirclePerimeterPoints(cx, cy, x, y, color);
      }
    }

    /** An outline must lie inside the frame: single pixels are not clipped, while scanlines are. */
    predicate OutlineFits(cx: UInt32, cy: UInt32, r: int) {
      r <= cx && r <= cy && cx + r < frame.width && cy + r < frame.height
    }

    /** How a circle is drawn. */
    function StyleOf(cx: UInt32, cy: UInt32, filled: bool): Circle.Style {
      if filled then Circle.Scanlines(cx, cy) else Circle.Outline
    }

    lemma StyleMeans(cx: UInt32, cy: UInt32, r: nat, dx: int, dy: int, filled: bool)
      ensures Circle.InShape(StyleOf(cx, cy, filled), r, dx, dy)
              <==> if filled then Circle.Touched(Circle.Scanlines(cx, cy), r, dx, dy) else Circle.OnCircle(r, dx, dy)
    {
    }

    /** Draws a circle: exactly its closed-form outline changes, or what the scanlines of its octant points fill. */
    method DrawCircle(cx: UInt32, cy: UInt32, r: UInt32, color: UInt32, filled: bool)
      requires frame.Valid() && r < COORDINATE_LIMIT && (filled || OutlineFits(cx, cy, r))
      modifies frame.backBuffer
      ensures forall px, py | frame.InFrame(px, py) ::
                frame.At(px, py) ==
                if (if filled then Circle.Touched(Circle.Scanlines(cx, cy), r, px - cx, py - cy)
                    else Circle.OnCircle(r, px - cx, py - cy)) then color else old(frame.At(px, py))
    {
      hide Circle.LoopState, Circle.TouchedUpTo, Circle.InShape, Circle.Touched, Circle.OnCircle;
      hide FrameBuffer.At, FrameBuffer.Index;
      ghost var style := StyleOf(cx, cy, filled);
      SignedValue(r);
      SignedValue(1 - r);
      hide ToInt32, ToUInt32;
      var x: Int32 := 0;
      var y: Int32 := ToInt32(r);
      var p: Int32 := ToInt32(ToUInt32(1 - r));
      ghost var last := 0;
      Circle.LoopStarts(r);
      forall dx, dy {
        Circle.TouchedFirst(style, r, dx, dy);
      }
      DrawCircleStep(cx, cy, x, y, color, filled);
      while x < y
        invariant Circle.LoopState(r, x, y, p, last)
        invariant 0 <= x <= r && 0 <= y <= r
        invariant forall px, py | frame.InFrame(px, py) ::
                    frame.At(px, py) ==
                    if Circle.TouchedUpTo(style, r, last, px - cx, py - cy) then color else old(frame.At(px, py))
        decreases y - x
      {
        ghost var x0, y0, p0, last0 := x, y, p, last;
        Circle.LoopBounds(r, x, y, p, last);
        x := x + 1;
        if p < 0 {
          p := p + (2 * x + 1);
        } else {
          y := y - 1;
          p := p + (2 * (x - y) + 1);
        }
        last := Circle.LoopAdvances(r, x0, y0, p0, last0, x, y, p);
        Circle.LoopBounds(r, x, y, p, last);
        DrawCircleStep(cx, cy, x, y, color, filled);
      }
      forall dx, dy
        ensures Circle.TouchedUpTo(style, r, last, dx, dy)
                <==> if filled then Circle.Touched(Circle.Scanlines(cx, cy), r, dx, dy) else Circle.OnCircle(r, dx, dy)
      {
        Circle.ShapeIsDrawn(style, r, x, y, p, last, dx, dy);
        StyleMeans(cx, cy, r, dx, dy, filled);
      }
    }

    /** Draws a filled circle: one that does not pass the left edge comes out as its disc. */
    method FillCircle(cx: UInt32, cy: UInt32, r: UInt32, color: UInt32)
      requires frame.Valid() && r < COORDINATE_LIMIT
      modifies frame.backBuffer
      ensures forall px, py | frame.InFrame(px, py) ::
                frame.At(px, py) ==
                if Circle.Touched(Circle.Scanlines(cx, cy), r, px - cx, py - cy) then color else old(frame.At(px, py))
      ensures r <= cx && cx + r < TWO32 && cy + r < TWO32 ==>
                forall px, py | frame.InFrame(px, py) ::
                  frame.At(px, py) == if Circle.InDisc(r, px - cx, py - cy) then color else old(frame.At(px, py))
    {
      hide Circle.Touched, Circle.InDisc, FrameBuffer.At, FrameBuffer.Index;
      DrawCircle(cx, cy, r, color, true);
      if r <= cx && cx + r < TWO32 && cy + r < TWO32 {
        forall px, py | frame.InFrame(px, py) {
          Circle.ScanlinesAreDisc(r, cx, cy, px, py);
        }
      }
    }
  }
}
