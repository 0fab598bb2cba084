/**
  The parts of egui's 2-D geometry that the dock style uses: points, vectors and
  axis-aligned rectangles in logical units ("points"), with y growing downwards,
  and the snapping of a coordinate to the device-pixel grid.
  Coordinates are `real`: `f32` rounding, NaN and infinities are not modelled.
 */
module Geometry {

  datatype Pos2 = Pos2(x: real, y: real)
  datatype Vec2 = Vec2(x: real, y: real)

  /** A rectangle given by its top-left `min` and bottom-right `max` corners.
      Nothing forces `min <= max`: such a rectangle is simply empty. */
  datatype Rect = Rect(min: Pos2, max: Pos2)

  function Min(a: real, b: real): real { if a <= b then a else b }
  function Max(a: real, b: real): real { if a <= b then b else a }

  function Width(r: Rect): real { r.max.x - r.min.x }
  function Height(r: Rect): real { r.max.y - r.min.y }
  function Center(r: Rect): Pos2 { Pos2((r.min.x + r.max.x) / 2.0, (r.min.y + r.max.y) / 2.0) }

  function LeftTop(r: Rect): Pos2 { r.min }
  function RightTop(r: Rect): Pos2 { Pos2(r.max.x, r.min.y) }
  function LeftBottom(r: Rect): Pos2 { Pos2(r.min.x, r.max.y) }
  function RightBottom(r: Rect): Pos2 { r.max }

  predicate Contains(r: Rect, p: Pos2) {
    r.min.x <= p.x <= r.max.x && r.min.y <= p.y <= r.max.y
  }

  /** `Rect::intersect`: the largest rectangle inside both. */
  function Intersect(a: Rect, b: Rect): (r: Rect)
    ensures forall p :: Contains(r, p) <==> Contains(a, p) && Contains(b, p)
  {
    Rect(Pos2(Max(a.min.x, b.min.x), Max(a.min.y, b.min.y)),
         Pos2(Min(a.max.x, b.max.x), Min(a.max.y, b.max.y)))
  }

  /** The unbounded regions `Rect::everything_right_of`, `everything_left_of`,
      `everything_above` and `everything_below`; each is closed on its edge. */
  datatype HalfPlane = RightOf(x: real) | LeftOf(x: real) | Above(y: real) | Below(y: real)

  predicate InHalfPlane(h: HalfPlane, p: Pos2) {
    match h
    case RightOf(x) => x <= p.x
    case LeftOf(x) => p.x <= x
    case Above(y) => p.y <= y
    case Below(y) => y <= p.y
  }

  /** `r.intersect(h)` for a half-plane `h`: the infinite sides of `h` leave the
      corresponding sides of `r` as they are. */
  function Clip(r: Rect, h: HalfPlane): (c: Rect)
    ensures forall p :: Contains(c, p) <==> Contains(r, p) && InHalfPlane(h, p)
    ensures (h.RightOf? || h.LeftOf?) ==> c.min.y == r.min.y && c.max.y == r.max.y
    ensures (h.Above? || h.Below?) ==> c.min.x == r.min.x && c.max.x == r.max.x
  {
    match h
    case RightOf(x) => Rect(Pos2(Max(r.min.x, x), r.min.y), r.max)
    case LeftOf(x) => Rect(r.min, Pos2(Min(r.max.x, x), r.max.y))
    case Above(y) => Rect(r.min, Pos2(r.max.x, Min(r.max.y, y)))
    case Below(y) => Rect(Pos2(r.min.x, Max(r.min.y, y)), r.max)
  }

  /** `b` has the edge of `h` and reaches at least as far as `r` on every other side:
      a finite stand-in for the half-plane as seen from `r`. */
  predicate StandsInFor(b: Rect, h: HalfPlane, r: Rect) {
    && (if h.RightOf? then b.min.x == h.x else b.min.x <= r.min.x)
    && (if h.LeftOf? then b.max.x == h.x else r.max.x <= b.max.x)
    && (if h.Below? then b.min.y == h.y else b.min.y <= r.min.y)
    && (if h.Above? then b.max.y == h.y else r.max.y <= b.max.y)
  }

  /** Clipping by a half-plane is egui's `intersect` with that half-plane. */
  lemma ClipIsIntersect(r: Rect, h: HalfPlane, b: Rect)
    requires StandsInFor(b, h, r)
    ensures Clip(r, h) == Intersect(r, b)
  {
  }

  function FromCenterSize(center: Pos2, size: Vec2): (r: Rect)
    ensures Center(r) == center && Width(r) == size.x && Height(r) == size.y
  {
    Rect(Pos2(center.x - size.x / 2.0, center.y - size.y / 2.0),
         Pos2(center.x + size.x / 2.0, center.y + size.y / 2.0))
  }

  /** `Rect::shrink2`: move every side inwards, by `v.x` horizontally and `v.y` vertically. */
  function Shrink2(r: Rect, v: Vec2): (s: Rect)
    ensures Center(s) == Center(r)
    ensures Width(s) == Width(r) - 2.0 * v.x && Height(s) == Height(r) - 2.0 * v.y
  {
    Rect(Pos2(r.min.x + v.x, r.min.y + v.y), Pos2(r.max.x - v.x, r.max.y - v.y))
  }

  /** `Rect::shrink`: move every side inwards by `amount`. */
  function Shrink(r: Rect, amount: real): (s: Rect)
    ensures s.min == Pos2(r.min.x + amount, r.min.y + amount)
    ensures s.max == Pos2(r.max.x - amount, r.max.y - amount)
    ensures Center(s) == Center(r)
  {
    Shrink2(r, Vec2(amount, amount))
  }

  /** Mirror a rectangle in the diagonal: x and y swap places. */
  function Transpose(r: Rect): (t: Rect)
    ensures Width(t) == Height(r) && Height(t) == Width(r)
    ensures forall p :: Contains(r, p) <==> Contains(t, Pos2(p.y, p.x))
  {
    Rect(Pos2(r.min.y, r.min.x), Pos2(r.max.y, r.max.x))
  }

  /** `f32::round`: the nearest integer, halves rounded away from zero. */
  function RoundHalfAway(v: real): (n: int)
    ensures v - 0.5 <= n as real <= v + 0.5
  {
    if 0.0 <= v then
      var k := (v + 0.5).Floor;
      assert k as real <= v + 0.5 < k as real + 1.0;
      k
    else
      var k := (-v + 0.5).Floor;
      assert k as real <= -v + 0.5 < k as real + 1.0;
      -k
  }

  /** A value exactly halfway between two integers goes to the one farther from zero. */
  lemma RoundHalfAwayAtHalves(m: int)
    ensures RoundHalfAway(m as real + 0.5) == if 0 <= m then m + 1 else m
  {
    if m < 0 {
      assert -(m as real + 0.5) + 0.5 == (-m) as real;
    }
  }

  lemma RoundHalfAwayMonotone(a: real, b: real)
    requires a <= b
    ensures RoundHalfAway(a) <= RoundHalfAway(b)
  {
    if a < 0.0 <= b {
      // -floor(0.5 - a) <= 0 <= floor(b + 0.5)
      assert (-a + 0.5).Floor >= 0;
    }
  }

  /** Snap a coordinate to the device-pixel grid: `round(v * ppp) / ppp`, where
      `ppp` is the number of device pixels per logical point. */
  function MapToPixel(v: real, pixelsPerPoint: real): (snapped: real)
    requires 0.0 < pixelsPerPoint
    ensures OnPixelGrid(snapped, pixelsPerPoint)
  {
    var k := RoundHalfAway(v * pixelsPerPoint);
    var snapped := k as real / pixelsPerPoint;
    assert snapped * pixelsPerPoint == k as real;
    assert (snapped * pixelsPerPoint).Floor == k;
    assert OnPixelGrid(snapped, pixelsPerPoint);
    snapped
  }

  /** `v` falls on a device-pixel boundary: it is a whole number of device pixels. */
  predicate OnPixelGrid(v: real, pixelsPerPoint: real) {
    (v * pixelsPerPoint).Floor as real == v * pixelsPerPoint
  }

  /** The size of one device pixel in logical units. */
  function DevicePixel(pixelsPerPoint: real): real
    requires 0.0 < pixelsPerPoint
  {
    1.0 / pixelsPerPoint
  }

  /** `snapped` is no more than half a device pixel away from `v`. */
  predicate WithinHalfPixel(snapped: real, v: real, pixelsPerPoint: real)
    requires 0.0 < pixelsPerPoint
  {
    v - DevicePixel(pixelsPerPoint) / 2.0 <= snapped <= v + DevicePixel(pixelsPerPoint) / 2.0
  }

  /** Snapping moves a coordinate by at most half a device pixel. */
  lemma MapToPixelError(v: real, pixelsPerPoint: real)
    requires 0.0 < pixelsPerPoint
    ensures WithinHalfPixel(MapToPixel(v, pixelsPerPoint), v, pixelsPerPoint)
  {
    var n := RoundHalfAway(v * pixelsPerPoint) as real;
    var d := n - v * pixelsPerPoint;
    assert -0.5 <= d <= 0.5;
    assert MapToPixel(v, pixelsPerPoint) == v + d / pixelsPerPoint;
    assert -0.5 / pixelsPerPoint <= d / pixelsPerPoint <= 0.5 / pixelsPerPoint;
    assert 0.5 / pixelsPerPoint == DevicePixel(pixelsPerPoint) / 2.0;
  }

  /** Snapping keeps coordinates in order. */
  lemma MapToPixelMonotone(a: real, b: real, pixelsPerPoint: real)
    requires 0.0 < pixelsPerPoint && a <= b
    ensures MapToPixel(a, pixelsPerPoint) <= MapToPixel(b, pixelsPerPoint)
  {
    MultiplyMonotone(a, b, pixelsPerPoint);
    RoundHalfAwayMonotone(a * pixelsPerPoint, b * pixelsPerPoint);
    DivideMonotone(RoundHalfAway(a * pixelsPerPoint) as real, RoundHalfAway(b * pixelsPerPoint) as real, pixelsPerPoint);
  }

  /** Multiplying by a positive factor keeps order. */
  lemma MultiplyMonotone(x: real, y: real, k: real)
    requires x <= y && 0.0 < k
    ensures x * k <= y * k
  {
    assert y * k - x * k == (y - x) * k;
  }

  /** Dividing by a positive divisor keeps order. */
  lemma DivideMonotone(x: real, y: real, k: real)
    requires x <= y && 0.0 < k
    ensures x / k <= y / k
  {
    assert y / k - x / k == (y - x) / k;
  }

}
