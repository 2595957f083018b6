/**
  Points, floating rectangles and the fixed 1280x720 window of the game
  (code/main.py:153). Coordinates are exact reals; the float rounding of
  the original is not modelled. The rectangle is kept as its top-left
  corner and its size, and the anchor points the game reads or writes
  (`right`, `bottom`, `center`, `midtop`, `midbottom`) are derived from them.
 */
module Geometry {

  const WindowWidth: real := 1280.0
  const WindowHeight: real := 720.0

  datatype Vec = Vec(x: real, y: real) {

    function Plus(v: Vec): Vec {
      Vec(x + v.x, y + v.y)
    }

    function Scale(k: real): Vec {
      Vec(x * k, y * k)
    }

    predicate IsZero() {
      x == 0.0 && y == 0.0
    }
  }

  datatype Rect = Rect(left: real, top: real, width: real, height: real) {

    function Right(): real { left + width }

    function Bottom(): real { top + height }

    function Center(): Vec { Vec(left + width / 2.0, top + height / 2.0) }

    function MidTop(): Vec { Vec(left + width / 2.0, top) }

    function MidBottom(): Vec { Vec(left + width / 2.0, top + height) }

    /** Assigning `rect.right` moves the rectangle so that its right edge is `v`. */
    function WithRight(v: real): (r: Rect)
      ensures r.Right() == v && r.top == top
      ensures r.width == width && r.height == height
    {
      this.(left := v - width)
    }

    /** Assigning `rect.bottom` moves the rectangle so that its bottom edge is `v`. */
    function WithBottom(v: real): (r: Rect)
      ensures r.Bottom() == v && r.left == left
      ensures r.width == width && r.height == height
    {
      this.(top := v - height)
    }

    /** `rect.center += d`: a translation that keeps the size. */
    function Shift(d: Vec): (r: Rect)
      ensures r.Center() == Center().Plus(d)
      ensures r.width == width && r.height == height
    {
      Rect(left + d.x, top + d.y, width, height)
    }

    /** The rectangle lies inside the window. */
    predicate InWindow() {
      0.0 <= left && Right() <= WindowWidth && 0.0 <= top && Bottom() <= WindowHeight
    }

    /** The rectangle is small enough to be placed inside the window. */
    predicate FitsWindow() {
      0.0 <= width <= WindowWidth && 0.0 <= height <= WindowHeight
    }

    /** No edge lies more than `margin` outside the window. */
    predicate NearWindow(margin: real) {
      -margin <= left && Right() <= WindowWidth + margin
      && -margin <= top && Bottom() <= WindowHeight + margin
    }
  }

  /** `image.get_frect(center = c)` for an image of size `w` x `h`. */
  function RectAtCenter(c: Vec, w: real, h: real): (r: Rect)
    ensures r.Center() == c && r.width == w && r.height == h
  {
    Rect(c.x - w / 2.0, c.y - h / 2.0, w, h)
  }

  /** `image.get_frect(midbottom = p)` for an image of size `w` x `h`. */
  function RectAtMidBottom(p: Vec, w: real, h: real): (r: Rect)
    ensures r.MidBottom() == p && r.width == w && r.height == h
  {
    Rect(p.x - w / 2.0, p.y - h, w, h)
  }

  /**
    `clock.tick() / 1000`: the frame time in seconds, from the whole number
    of milliseconds that `clock.tick()` reports (code/main.py:189).
   */
  function Seconds(ms: nat): (s: real)
    ensures 0.0 <= s
    ensures s * 1000.0 == ms as real
  {
    ms as real / 1000.0
  }
}
