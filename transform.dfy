/** The mapping from detection (video) pixel space to on-screen-display
    pixel space that `AutoCensor.work` performs for every admitted detection
    (main.py lines 77-79 and 97-108). */
module Transform {

  /** A detection box `(x1, y1, x2, y2)` in video pixels. */
  datatype Box = Box(x1: int, y1: int, x2: int, y2: int)

  /** The six player properties the transform needs: the OSD margins
      (`osd-dimensions/mt`, `osd-dimensions/ml`), the OSD size
      (`osd-dimensions/w`, `osd-dimensions/h`) and the native video size
      (`width`, `height`). */
  datatype Geometry = Geometry(mt: int, ml: int, osdW: int, osdH: int, width: int, height: int)

  /** An on-screen rectangle: the position handed to the overlay and the
      size of the opaque image drawn into it. */
  datatype Rect = Rect(x: int, y: int, w: int, h: int)

  /** `n` is `x` rounded toward zero: the integer nearest to `x` on the side
      of zero, as Python's `int()` of a float gives it. */
  predicate TowardZero(n: int, x: real)
  {
    if x >= 0.0 then n as real <= x < n as real + 1.0
    else n as real - 1.0 < x <= n as real
  }

  /** Python's `int()` on a float: truncation toward zero. Unlike `.Floor`
      it rounds negative non-integers up. */
  function Trunc(x: real): (r: int)
    ensures TowardZero(r, x)
  {
    if x >= 0.0 then x.Floor else -((-x).Floor)
  }

  /** Truncation is determined by its specification. */
  lemma TruncUnique(n: int, x: real)
    requires TowardZero(n, x)
    ensures n == Trunc(x)
  {
    if x >= 0.0 {
      assert x.Floor as real <= x < x.Floor as real + 1.0;
    } else {
      assert (-x).Floor as real <= -x < (-x).Floor as real + 1.0;
    }
  }

  /** Truncation and flooring agree exactly on non-negative values and on
      integral values; on a negative non-integer they differ by one. */
  lemma TruncVersusFloor(x: real)
    ensures Trunc(x) == x.Floor <==> (x >= 0.0 || x == x.Floor as real)
    ensures Trunc(x) != x.Floor ==> Trunc(x) == x.Floor + 1
  {
    assert x.Floor as real <= x < x.Floor as real + 1.0;
    if x < 0.0 && x != x.Floor as real {
      TruncUnique(x.Floor + 1, x);
    } else if x < 0.0 {
      TruncUnique(x.Floor, x);
    }
  }

  /** An integer converted to real truncates back to itself. */
  lemma TruncOfInt(n: int)
    ensures Trunc(n as real) == n
  {
    TruncUnique(n, n as real);
  }

  /** Truncation is symmetric about zero. */
  lemma TruncNegate(x: real)
    ensures Trunc(-x) == -Trunc(x)
  {
    TruncUnique(-Trunc(x), -x);
  }

  /** Horizontal scale factor (main.py line 78): video pixels to OSD pixels
      inside the left and right margins. */
  function ScaleX(g: Geometry): (s: real)
    requires g.width != 0
    ensures s * g.width as real == (g.osdW - 2 * g.ml) as real
  {
    (g.osdW - 2 * g.ml) as real / g.width as real
  }

  /** Vertical scale factor (main.py line 79), inside the top and bottom margins. */
  function ScaleY(g: Geometry): (s: real)
    requires g.height != 0
    ensures s * g.height as real == (g.osdH - 2 * g.mt) as real
  {
    (g.osdH - 2 * g.mt) as real / g.height as real
  }

  /** One coordinate of the rectangle's position: `p * s + margin`,
      truncated toward zero (main.py lines 104-105 and 108). */
  function Place(p: int, s: real, margin: int): int
  {
    Trunc(p as real * s + margin as real)
  }

  /** One side of the rectangle's size: `(p2 - p1) * s`, truncated toward
      zero (main.py lines 97-98, 102-103 and 107). */
  function Extent(p1: int, p2: int, s: real): int
  {
    Trunc((p2 - p1) as real * s)
  }

  /** The box-to-screen transform (main.py lines 97-108). */
  function ToScreen(b: Box, g: Geometry): Rect
    requires g.width != 0 && g.height != 0
  {
    Rect(Place(b.x1, ScaleX(g), g.ml), Place(b.y1, ScaleY(g), g.mt),
         Extent(b.x1, b.x2, ScaleX(g)), Extent(b.y1, b.y2, ScaleY(g)))
  }

  /** One axis of the transform, for a non-negative interval, margin and
      scale: the rectangle starts at or before the scaled near edge, and ends
      at or before the scaled far edge but less than two pixels short of it,
      one pixel lost to truncating the position and one to truncating the size. */
  lemma AxisCoverage(p1: int, p2: int, margin: int, s: real)
    requires 0 <= p1 <= p2 && 0 <= margin && 0.0 <= s
    ensures Place(p1, s, margin) as real <= p1 as real * s + margin as real
    ensures p2 as real * s + margin as real - 2.0
          < (Place(p1, s, margin) + Extent(p1, p2, s)) as real
         <= p2 as real * s + margin as real
  {
    var a, e, f := p1 as real * s, (p2 - p1) as real * s, p2 as real * s;
    ScaleMonotone(0.0, p1 as real, s);
    ScaleMonotone(0.0, (p2 - p1) as real, s);
    assert e == f - a;
    var x, w := Place(p1, s, margin), Extent(p1, p2, s);
    assert x as real <= a + margin as real < x as real + 1.0;
    assert w as real <= e < w as real + 1.0;
  }

  /** How much of a detected region the overlay covers: for a box with
      non-negative coordinates in a window at least as large as its margins,
      the drawn rectangle starts at or before the scaled box and stops less
      than two OSD pixels short of its far edges, and never beyond them. */
  lemma ToScreenCoverage(b: Box, g: Geometry)
    requires 0 < g.width && 0 < g.height
    requires 0 <= g.ml && 2 * g.ml <= g.osdW
    requires 0 <= g.mt && 2 * g.mt <= g.osdH
    requires 0 <= b.x1 <= b.x2 && 0 <= b.y1 <= b.y2
    ensures var r := ToScreen(b, g);
      r.x as real <= b.x1 as real * ScaleX(g) + g.ml as real &&
      b.x2 as real * ScaleX(g) + g.ml as real - 2.0 < (r.x + r.w) as real <= b.x2 as real * ScaleX(g) + g.ml as real &&
      r.y as real <= b.y1 as real * ScaleY(g) + g.mt as real &&
      b.y2 as real * ScaleY(g) + g.mt as real - 2.0 < (r.y + r.h) as real <= b.y2 as real * ScaleY(g) + g.mt as real
  {
    ScaleNonNegative(g.width, g.ml, g.osdW, ScaleX(g));
    ScaleNonNegative(g.height, g.mt, g.osdH, ScaleY(g));
    AxisCoverage(b.x1, b.x2, g.ml, ScaleX(g));
    AxisCoverage(b.y1, b.y2, g.mt, ScaleY(g));
  }

  /** The whole video frame lands exactly on the OSD area inside the margins. */
  lemma FullFrameIsDisplayArea(g: Geometry)
    requires g.width != 0 && g.height != 0
    ensures ToScreen(Box(0, 0, g.width, g.height), g)
         == Rect(g.ml, g.mt, g.osdW - 2 * g.ml, g.osdH - 2 * g.mt)
  {
    var r := ToScreen(Box(0, 0, g.width, g.height), g);
    assert (g.width - 0) as real * ScaleX(g) == (g.osdW - 2 * g.ml) as real;
    assert (g.height - 0) as real * ScaleY(g) == (g.osdH - 2 * g.mt) as real;
    TruncOfInt(g.ml);
    TruncOfInt(g.mt);
    TruncOfInt(g.osdW - 2 * g.ml);
    TruncOfInt(g.osdH - 2 * g.mt);
  }

  /** An 800x450 window without margins showing a 1920x1080 video: the
      lower-right quarter of the frame becomes the lower-right quarter of
      the window. */
  lemma QuarterFrameExample()
    ensures ToScreen(Box(960, 540, 1920, 1080), Geometry(0, 0, 800, 450, 1920, 1080))
         == Rect(400, 225, 400, 225)
  {
    var g := Geometry(0, 0, 800, 450, 1920, 1080);
    assert ScaleX(g) == 800.0 / 1920.0;
    assert ScaleY(g) == 450.0 / 1080.0;
    assert 960.0 * ScaleX(g) + 0.0 == 400.0;
    assert 540.0 * ScaleY(g) + 0.0 == 225.0;
    TruncOfInt(400);
    TruncOfInt(225);
  }

  /** Multiplying by a non-negative factor is monotone. */
  lemma ScaleMonotone(a: real, b: real, s: real)
    requires a <= b && 0.0 <= s
    ensures a * s <= b * s
  {
    assert b * s - a * s == (b - a) * s;
  }

  /** A window at least as large as its margins gives a non-negative scale. */
  lemma ScaleNonNegative(size: int, margin: int, osd: int, s: real)
    requires 0 < size && 2 * margin <= osd
    requires s * size as real == (osd - 2 * margin) as real
    ensures 0.0 <= s
  {
    if s < 0.0 {
      ScaleMonotone(0.0, size as real, -s);
    }
  }

  /** One axis of the transform: an interval `[p1, p2]` of `[0, size]`
      scaled by `s` and shifted by `margin` stays within `[margin, osd - margin]`. */
  lemma AxisStaysInside(p1: int, p2: int, size: int, margin: int, osd: int, s: real)
    requires 0 < size && 0 <= margin && 2 * margin <= osd
    requires 0 <= p1 <= p2 <= size
    requires s * size as real == (osd - 2 * margin) as real
    ensures margin <= Place(p1, s, margin)
    ensures 0 <= Extent(p1, p2, s)
    ensures Place(p1, s, margin) + Extent(p1, p2, s) <= osd - margin
  {
    ScaleNonNegative(size, margin, osd, s);
    var a, e, f := p1 as real * s, (p2 - p1) as real * s, p2 as real * s;
    ScaleMonotone(0.0, p1 as real, s);
    ScaleMonotone(0.0, (p2 - p1) as real, s);
    ScaleMonotone(p2 as real, size as real, s);
    assert e == f - a;
    assert 0.0 <= a && 0.0 <= e && f <= (osd - 2 * margin) as real;
    var x, w := Place(p1, s, margin), Extent(p1, p2, s);
    assert margin as real <= a + margin as real;
    assert x as real <= a + margin as real && w as real <= e;
  }

  /** A box inside the video frame, shown in a window at least as large as
      its margins, yields a rectangle inside the OSD area between the
      margins: truncation never pushes it past either edge. */
  lemma InsideFrameStaysOnScreen(b: Box, g: Geometry)
    requires 0 < g.width && 0 < g.height
    requires 0 <= g.ml && 2 * g.ml <= g.osdW
    requires 0 <= g.mt && 2 * g.mt <= g.osdH
    requires 0 <= b.x1 <= b.x2 <= g.width
    requires 0 <= b.y1 <= b.y2 <= g.height
    ensures var r := ToScreen(b, g);
      g.ml <= r.x && 0 <= r.w && r.x + r.w <= g.osdW - g.ml &&
      g.mt <= r.y && 0 <= r.h && r.y + r.h <= g.osdH - g.mt
  {
    AxisStaysInside(b.x1, b.x2, g.width, g.ml, g.osdW, ScaleX(g));
    AxisStaysInside(b.y1, b.y2, g.height, g.mt, g.osdH, ScaleY(g));
  }
}
