/**
 * Coordinate arithmetic of the viewer, over exact reals.
 *
 * Positions are stored as percentages of the page's on-screen box, so
 * they survive zoom changes.  Pointer offsets are converted to
 * percentages when an annotation is placed, back to pixels when a
 * marker is drawn, and percentages are converted to PDF points (origin
 * bottom-left) when the annotations are baked into the document.
 */
module Geometry {

  import opened Wrappers

  function Abs(x: real): real {
    if x < 0.0 then -x else x
  }

  function Min(a: real, b: real): real {
    if a <= b then a else b
  }

  function Max(a: real, b: real): real {
    if a >= b then a else b
  }

  /** `Math.max(0, Math.min(100, v))`. */
  function Clamp(v: real): (r: real)
    ensures 0.0 <= r <= 100.0
    ensures 0.0 <= v <= 100.0 ==> r == v
    ensures v < 0.0 ==> r == 0.0
    ensures 100.0 < v ==> r == 100.0
  {
    Max(0.0, Min(100.0, v))
  }

  /**
   * `+v.toFixed(3)`: ECMAScript rounds |v| to the nearest multiple of
   * 0.001, picking the larger one on a tie, and restores the sign.
   */
  function Round3(v: real): (r: real)
    ensures -1.0 / 2000.0 <= r - v <= 1.0 / 2000.0
    ensures 0.0 <= v ==> 0.0 <= r
    ensures v <= 0.0 ==> r <= 0.0
    ensures 0.0 <= v <= 100.0 ==> r <= 100.0
  {
    if v >= 0.0 then (v * 1000.0 + 0.5).Floor as real / 1000.0
    else -((-v * 1000.0 + 0.5).Floor as real / 1000.0)
  }

  /** Rounding to three decimals is monotone: it never swaps two coordinates. */
  lemma Round3Monotone(a: real, b: real)
    requires a <= b
    ensures Round3(a) <= Round3(b)
  {
    if a >= 0.0 {
      assert (a * 1000.0 + 0.5).Floor <= (b * 1000.0 + 0.5).Floor;
    } else if b < 0.0 {
      assert (-b * 1000.0 + 0.5).Floor <= (-a * 1000.0 + 0.5).Floor;
    }
  }

  /** A value already rounded to three decimals is left alone. */
  lemma Round3Idempotent(v: real)
    ensures Round3(Round3(v)) == Round3(v)
  {
    var r := Round3(v);
    if v >= 0.0 {
      var n := (v * 1000.0 + 0.5).Floor;
      assert r * 1000.0 + 0.5 == n as real + 0.5;
      assert (r * 1000.0 + 0.5).Floor == n;
    } else {
      var n := (-v * 1000.0 + 0.5).Floor;
      assert -r * 1000.0 + 0.5 == n as real + 0.5;
      if r < 0.0 {
        assert (-r * 1000.0 + 0.5).Floor == n;
      }
    }
  }

  /** Pointer offset inside a box of `size` pixels, as a percentage of that box. */
  function PixelToPercent(offset: real, size: PosReal): real {
    offset / size * 100.0
  }

  /** A marker's `left: p%` inside a box of `size` pixels, as a pixel offset. */
  function PercentToPixel(percent: real, size: PosReal): real {
    percent / 100.0 * size
  }

  /** Pixel and percentage space are exact inverses of each other, in both directions. */
  lemma PixelPercentRoundTrip(offset: real, percent: real, size: PosReal)
    ensures PercentToPixel(PixelToPercent(offset, size), size) == offset
    ensures PixelToPercent(PercentToPixel(percent, size), size) == percent
  {
    assert offset / size * size == offset;
    assert percent / 100.0 * size / size == percent / 100.0;
  }

  /** An offset inside the box lands inside [0, 100], and only such an offset does. */
  lemma PixelToPercentInRange(offset: real, size: PosReal)
    ensures 0.0 <= offset <= size <==> 0.0 <= PixelToPercent(offset, size) <= 100.0
  {
    var p := PixelToPercent(offset, size);
    assert p / 100.0 * size == offset by { PixelPercentRoundTrip(offset, 0.0, size); }
  }

  /** A point in percentage space. */
  datatype Point = Point(xPercent: real, yPercent: real)

  /**
   * The position `_onClick` computes for a click at pixel offset
   * `(dx, dy)` of a `width` x `height` overlay, rounded by `toFixed(3)`.
   * It is not clamped: an offset outside the overlay gives a percentage
   * outside [0, 100].
   */
  function ClickPoint(dx: real, dy: real, width: PosReal, height: PosReal): (p: Point)
    ensures Abs(p.xPercent - PixelToPercent(dx, width)) <= 1.0 / 2000.0
    ensures Abs(p.yPercent - PixelToPercent(dy, height)) <= 1.0 / 2000.0
    ensures 0.0 <= dx <= width && 0.0 <= dy <= height ==>
              0.0 <= p.xPercent <= 100.0 && 0.0 <= p.yPercent <= 100.0
  {
    PixelToPercentInRange(dx, width);
    PixelToPercentInRange(dy, height);
    Point(Round3(PixelToPercent(dx, width)), Round3(PixelToPercent(dy, height)))
  }

  /** The anchor `_drawPosition` computes for the handwriting stamp: not rounded, not clamped. */
  function DrawPoint(dx: real, dy: real, width: PosReal, height: PosReal): (p: Point)
    ensures PercentToPixel(p.xPercent, width) == dx && PercentToPixel(p.yPercent, height) == dy
  {
    PixelPercentRoundTrip(dx, 0.0, width);
    PixelPercentRoundTrip(dy, 0.0, height);
    Point(PixelToPercent(dx, width), PixelToPercent(dy, height))
  }

  /** Geometry of a committed rectangle gesture, in percentages. */
  datatype RectGeometry = RectGeometry(xPercent: real, yPercent: real, widthPercent: real, heightPercent: real)

  /** Gestures narrower or shorter than this many pixels are discarded. */
  const MinRectPixels: real := 10.0

  /**
   * The `onUp` handler of a rectangle gesture that started at pixel
   * offset `(sx, sy)` and was released at `(ex, ey)`.
   */
  function RectGesture(sx: real, sy: real, ex: real, ey: real, width: PosReal, height: PosReal): (g: Option<RectGeometry>)
    ensures g.None? <==> Abs(ex - sx) < MinRectPixels || Abs(ey - sy) < MinRectPixels
    ensures g.Some? ==>
              && Abs(g.value.xPercent - PixelToPercent(Min(sx, ex), width)) <= 1.0 / 2000.0
              && Abs(g.value.yPercent - PixelToPercent(Min(sy, ey), height)) <= 1.0 / 2000.0
              && Abs(g.value.widthPercent - PixelToPercent(Abs(ex - sx), width)) <= 1.0 / 2000.0
              && Abs(g.value.heightPercent - PixelToPercent(Abs(ey - sy), height)) <= 1.0 / 2000.0
              && 0.0 <= g.value.widthPercent && 0.0 <= g.value.heightPercent
  {
    var w := Abs(ex - sx);
    var h := Abs(ey - sy);
    if w < MinRectPixels || h < MinRectPixels then None
    else
      assert 0.0 <= PixelToPercent(w, width) && 0.0 <= PixelToPercent(h, height);
      Some(RectGeometry(
        Round3(PixelToPercent(Min(sx, ex), width)),
        Round3(PixelToPercent(Min(sy, ey), height)),
        Round3(PixelToPercent(w, width)),
        Round3(PixelToPercent(h, height))))
  }

  /**
   * Before rounding, the rectangle a gesture selects spans exactly from
   * the smaller to the larger of the two pointer positions on each axis,
   * whichever corner the gesture started from.
   */
  lemma RectGestureSpansPointers(sx: real, ex: real, size: PosReal)
    ensures PixelToPercent(Min(sx, ex), size) + PixelToPercent(Abs(ex - sx), size)
            == PixelToPercent(Max(sx, ex), size)
    ensures PixelToPercent(Min(sx, ex), size) <= PixelToPercent(sx, size) <= PixelToPercent(Max(sx, ex), size)
    ensures PixelToPercent(Min(sx, ex), size) <= PixelToPercent(ex, size) <= PixelToPercent(Max(sx, ex), size)
  {
    assert Min(sx, ex) + Abs(ex - sx) == Max(sx, ex);
    assert Min(sx, ex) / size <= sx / size <= Max(sx, ex) / size;
    assert Min(sx, ex) / size <= ex / size <= Max(sx, ex) / size;
  }

  /**
   * The unclamped position of a dragged marker: the start position,
   * turned into pixels, shifted by the pointer delta, turned back.
   */
  function DragTarget(start: real, delta: real, size: PosReal): real {
    ((start / 100.0) * size + delta) / size * 100.0
  }

  /** A pointer delta of `d` pixels moves a marker by `d / size * 100` percent. */
  lemma DragTargetShift(start: real, delta: real, size: PosReal)
    ensures DragTarget(start, delta, size) == start + delta / size * 100.0
  {
    assert ((start / 100.0) * size + delta) / size == start / 100.0 + delta / size;
  }

  /**
   * The marker position on one axis after the pointer moves in `deltas`
   * have been seen; `current` is the position shown before them.  Each
   * move recomputes the position from the drag's starting position and
   * clamps it into [0, 100]; the release commits the last one shown.
   */
  function DragRelease(start: real, current: real, deltas: seq<real>, size: PosReal): (r: real)
    ensures |deltas| == 0 ==> r == current
    ensures |deltas| > 0 ==> r == Clamp(start + deltas[|deltas| - 1] / size * 100.0)
    ensures |deltas| > 0 ==> 0.0 <= r <= 100.0
    decreases |deltas|
  {
    if |deltas| == 0 then current
    else
      DragTargetShift(start, deltas[0], size);
      DragRelease(start, Clamp(DragTarget(start, deltas[0], size)), deltas[1..], size)
  }

  /** Render scales accepted by `zoomTo`. */
  const MinScale: real := 0.25
  const MaxScale: real := 5.0

  /** `Math.max(0.25, Math.min(5, scale))`. */
  function ZoomClamp(scale: real): (r: real)
    ensures MinScale <= r <= MaxScale
    ensures MinScale <= scale <= MaxScale <==> r == scale
    ensures scale < MinScale ==> r == MinScale
    ensures scale > MaxScale ==> r == MaxScale
  {
    Max(MinScale, Min(MaxScale, scale))
  }

  /** Zoom clamping is idempotent and monotone. */
  lemma ZoomClampStable(a: real, b: real)
    ensures ZoomClamp(ZoomClamp(a)) == ZoomClamp(a)
    ensures a <= b ==> ZoomClamp(a) <= ZoomClamp(b)
  {
  }

  /**
   * `Math.max(1, Math.min(pdfDoc ? numPages : n, n))`: the page
   * `goToPage(n)` scrolls to; `pages` is `None` before a document is loaded.
   */
  function PageClamp(n: int, pages: Option<nat>): (r: int)
    ensures 1 <= r
    ensures pages.None? ==> r == (if n < 1 then 1 else n)
    ensures pages.Some? && 1 <= pages.value ==> r <= pages.value
    ensures pages.Some? && 1 <= n <= pages.value ==> r == n
    ensures pages.Some? && pages.value < n ==> r == (if pages.value < 1 then 1 else pages.value)
    ensures n < 1 ==> r == 1
  {
    var hi := if pages.Some? then pages.value else n;
    var lo := if hi <= n then hi else n;
    if lo < 1 then 1 else lo
  }
}
