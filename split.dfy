/**
  The split resolver of `Style::hsplit` and `Style::vsplit`: move the caller's
  split fraction by this frame's drag, keep it away from the edges by
  `separator_extra`, and cut the rectangle into the two panes and the
  separator strip between them.

  The drag delta and the pixels-per-point ratio are what egui reports for this
  frame; they are parameters here.
 */
module Split {
  import opened Geometry
  import opened DockStyle

  /** `f32::clamp` (which panics when `lo > hi`; the callers below never let that happen). */
  function Clamp(x: real, lo: real, hi: real): (r: real)
    requires lo <= hi
    ensures lo <= r <= hi
    ensures lo <= x <= hi ==> r == x
    ensures x < lo ==> r == lo
    ensures hi < x ==> r == hi
  {
    if x < lo then lo else if x > hi then hi else x
  }

  /** The interval the fraction is clamped to, for a rectangle `range` units long
      along the split axis: `m = min(extra / range, 1)` and `1 - m`, put in order. */
  function FractionBounds(extra: real, range: real): (b: (real, real))
    requires 0.0 < range
    ensures b.0 <= b.1 && b.0 + b.1 == 1.0
    ensures b.0 <= 0.5 <= b.1
    ensures 0.0 <= extra ==> 0.0 <= b.0 && b.1 <= 1.0
  {
    var lo := Min(extra / range, 1.0);
    var hi := 1.0 - lo;
    (Min(lo, hi), Max(hi, lo))
  }

  /** The fraction after a drag of `delta` units along an axis `range` units long. */
  function ResolveFraction(fraction: real, delta: real, range: real, extra: real): (f: real)
    requires 0.0 < range
    ensures FractionBounds(extra, range).0 <= f <= FractionBounds(extra, range).1
    ensures (FractionBounds(extra, range).0 <= fraction + delta / range <= FractionBounds(extra, range).1)
              ==> f == fraction + delta / range
  {
    var b := FractionBounds(extra, range);
    Clamp(fraction + delta / range, b.0, b.1)
  }

  /** Dividing by a positive length keeps comparisons: `x / range` is below,
      at or above `k` exactly when `x` is below, at or above `k * range`. */
  lemma DivCompare(x: real, range: real, k: real)
    requires 0.0 < range
    ensures x / range < k <==> x < k * range
    ensures x / range == k <==> x == k * range
  {
    var m := x / range;
    assert m * range == x;
    assert (k - m) * range == k * range - x;
  }

  /** When the margin fits twice into the rectangle the bounds are `extra / range`
      and its mirror image. */
  lemma BoundsWhenMarginFits(extra: real, range: real)
    requires 0.0 < range && 0.0 <= extra && 2.0 * extra <= range
    ensures FractionBounds(extra, range) == (extra / range, 1.0 - extra / range)
  {
    DivCompare(extra, range, 0.5);
  }

  /** When the margin is at least the whole rectangle the fraction is free in `[0, 1]`. */
  lemma BoundsWhenMarginCoversRange(extra: real, range: real)
    requires 0.0 < range && range <= extra
    ensures FractionBounds(extra, range) == (0.0, 1.0)
  {
    DivCompare(extra, range, 1.0);
  }

  /** Between the two, the bounds swap round: the fraction may range over
      `[1 - extra / range, extra / range]`, a non-empty interval, instead of
      being pinned. */
  lemma BoundsWhenMarginExceedsHalf(extra: real, range: real)
    requires 0.0 < range && range < 2.0 * extra && extra < range
    ensures FractionBounds(extra, range) == (1.0 - extra / range, extra / range)
    ensures FractionBounds(extra, range).0 < FractionBounds(extra, range).1
  {
    DivCompare(extra, range, 0.5);
    DivCompare(extra, range, 1.0);
  }

  /** The fraction is pinned to a single value exactly when the rectangle is
      twice the margin long. */
  lemma BoundsCollapseIff(extra: real, range: real)
    requires 0.0 < range
    ensures FractionBounds(extra, range).0 == FractionBounds(extra, range).1 <==> 2.0 * extra == range
  {
    DivCompare(extra, range, 0.5);
  }

  /** With no drag, a fraction already in bounds stays where it is. */
  lemma ResolveAtRest(fraction: real, range: real, extra: real)
    requires 0.0 < range
    requires FractionBounds(extra, range).0 <= fraction <= FractionBounds(extra, range).1
    ensures ResolveFraction(fraction, 0.0, range, extra) == fraction
  {
  }

  /** Resolving again with no drag changes nothing. */
  lemma ResolveIdempotent(fraction: real, delta: real, range: real, extra: real)
    requires 0.0 < range
    ensures var f := ResolveFraction(fraction, delta, range, extra);
      ResolveFraction(f, 0.0, range, extra) == f
  {
    ResolveAtRest(ResolveFraction(fraction, delta, range, extra), range, extra);
  }

  /** When the margin fits twice, the split point keeps at least `extra` units
      from both ends of the axis. */
  lemma MinimumPaneSize(fraction: real, delta: real, range: real, extra: real)
    requires 0.0 < range && 0.0 <= extra && 2.0 * extra <= range
    ensures var f := ResolveFraction(fraction, delta, range, extra);
      extra <= range * f <= range - extra
  {
    BoundsWhenMarginFits(extra, range);
    var f := ResolveFraction(fraction, delta, range, extra);
    var m := extra / range;
    assert m <= f <= 1.0 - m;
    assert range * m == extra;
    assert range * m <= range * f;
    assert range * f <= range * (1.0 - m);
  }

  /** While the margin fits twice, a larger margin narrows the interval the
      fraction may take. */
  lemma LargerMarginNarrowsBelowHalf(e1: real, e2: real, range: real)
    requires 0.0 < range && 0.0 <= e1 <= e2 && 2.0 * e2 <= range
    ensures FractionBounds(e1, range).0 <= FractionBounds(e2, range).0
    ensures FractionBounds(e2, range).1 <= FractionBounds(e1, range).1
  {
    BoundsWhenMarginFits(e1, range);
    BoundsWhenMarginFits(e2, range);
    DivideMonotone(e1, e2, range);
  }

  /** Past half the rectangle the relation reverses: a larger margin widens the
      interval again, up to `[0, 1]`. */
  lemma LargerMarginWidensAboveHalf(e1: real, e2: real, range: real)
    requires 0.0 < range && range <= 2.0 * e1 && e1 <= e2
    ensures FractionBounds(e2, range).0 <= FractionBounds(e1, range).0
    ensures FractionBounds(e1, range).1 <= FractionBounds(e2, range).1
  {
    DivCompare(e1, range, 0.5);
    DivCompare(e2, range, 0.5);
    DivCompare(e1, range, 1.0);
    DivCompare(e2, range, 1.0);
    DivideMonotone(e1, e2, range);
  }

  /** On a 400-unit rectangle, a margin of 200 pins the fraction at 1/2 while a
      larger margin of 300 lets it range over `[0.25, 0.75]`. */
  lemma LargerMarginScenario()
    ensures FractionBounds(200.0, 400.0) == (0.5, 0.5)
    ensures FractionBounds(300.0, 400.0) == (0.25, 0.75)
  {
    BoundsWhenMarginFits(200.0, 400.0);
    BoundsWhenMarginExceedsHalf(300.0, 400.0);
  }

  /** A 400-unit rectangle with the default margin of 175 clamps the fraction to
      `[0.4375, 0.5625]`, so dragging by half the width from the middle stops at 0.5625. */
  lemma DragPastBoundScenario()
    ensures FractionBounds(175.0, 400.0) == (0.4375, 0.5625)
    ensures ResolveFraction(0.5, 200.0, 400.0, 175.0) == 0.5625
  {
    BoundsWhenMarginFits(175.0, 400.0);
  }

  /** The point `fraction` of the way along an axis that starts at `start` and is
      `extent` long. */
  function SplitPoint(start: real, extent: real, fraction: real): (p: real)
    ensures fraction == 0.0 ==> p == start
    ensures fraction == 1.0 ==> p == start + extent
    ensures 0.0 <= extent && 0.0 <= fraction <= 1.0 ==> start <= p <= start + extent
  {
    assert 0.0 <= extent && 0.0 <= fraction <= 1.0 ==> 0.0 <= extent * fraction <= extent by {
      if 0.0 <= extent && 0.0 <= fraction <= 1.0 {
        FractionOfExtent(extent, fraction);
      }
    }
    start + extent * fraction
  }

  /** A fraction in `[0, 1]` of a non-negative extent lies between zero and the extent. */
  lemma FractionOfExtent(extent: real, fraction: real)
    requires 0.0 <= extent && 0.0 <= fraction <= 1.0
    ensures 0.0 <= extent * fraction <= extent
  {
    assert extent - extent * fraction == extent * (1.0 - fraction);
  }

  /** The two pixel-snapped edges of a separator `width` wide centred on `mid`. */
  function SeparatorEdges(mid: real, width: real, pixelsPerPoint: real): (e: (real, real))
    requires 0.0 < pixelsPerPoint
    ensures OnPixelGrid(e.0, pixelsPerPoint) && OnPixelGrid(e.1, pixelsPerPoint)
  {
    (MapToPixel(mid - width * 0.5, pixelsPerPoint), MapToPixel(mid + width * 0.5, pixelsPerPoint))
  }

  /** Each snapped edge lies within half a device pixel of the exact edge. */
  lemma SeparatorEdgesNearExact(mid: real, width: real, pixelsPerPoint: real)
    requires 0.0 < pixelsPerPoint
    ensures var e := SeparatorEdges(mid, width, pixelsPerPoint);
      && WithinHalfPixel(e.0, mid - width * 0.5, pixelsPerPoint)
      && WithinHalfPixel(e.1, mid + width * 0.5, pixelsPerPoint)
  {
    MapToPixelError(mid - width * 0.5, pixelsPerPoint);
    MapToPixelError(mid + width * 0.5, pixelsPerPoint);
  }

  /** A separator of non-negative width keeps its edges in order after snapping,
      and its snapped width is within one device pixel of `width`. */
  lemma SeparatorWidthWithinPixel(mid: real, width: real, pixelsPerPoint: real)
    requires 0.0 < pixelsPerPoint
    ensures var e := SeparatorEdges(mid, width, pixelsPerPoint);
      && (0.0 <= width ==> e.0 <= e.1)
      && width - DevicePixel(pixelsPerPoint) <= e.1 - e.0 <= width + DevicePixel(pixelsPerPoint)
  {
    SeparatorEdgesNearExact(mid, width, pixelsPerPoint);
    if 0.0 <= width {
      MapToPixelMonotone(mid - width * 0.5, mid + width * 0.5, pixelsPerPoint);
    }
  }

  /** With a margin that holds half the separator plus half a device pixel of
      rounding, the snapped separator at the resolved fraction lies inside the
      axis `[start, start + extent]`. */
  lemma SeparatorInsideAxis(start: real, extent: real, fraction: real, delta: real,
                            extra: real, width: real, pixelsPerPoint: real)
    requires 0.0 < extent && 0.0 < pixelsPerPoint && 0.0 <= width
    requires 2.0 * extra <= extent && width * 0.5 + DevicePixel(pixelsPerPoint) / 2.0 <= extra
    ensures var mid := SplitPoint(start, extent, ResolveFraction(fraction, delta, extent, extra));
      var e := SeparatorEdges(mid, width, pixelsPerPoint);
      start <= e.0 <= e.1 <= start + extent
  {
    var f := ResolveFraction(fraction, delta, extent, extra);
    var mid := SplitPoint(start, extent, f);
    MinimumPaneSize(fraction, delta, extent, extra);
    assert extent * f == mid - start;
    assert start + extra <= mid <= start + extent - extra;
    SeparatorEdgesNearExact(mid, width, pixelsPerPoint);
    SeparatorWidthWithinPixel(mid, width, pixelsPerPoint);
  }

  /** The three regions `hsplit` returns for a settled fraction: everything right
      of the separator, the separator, everything left of it. */
  function HSplitRegions(rect: Rect, fraction: real, width: real, pixelsPerPoint: real): (r: (Rect, Rect, Rect))
    requires 0.0 < pixelsPerPoint
    ensures var (right, sep, left) := r;
      && (sep.min.x, sep.max.x) == SeparatorEdges(SplitPoint(rect.min.x, Width(rect), fraction), width, pixelsPerPoint)
      && sep.min.y == right.min.y == left.min.y == rect.min.y
      && sep.max.y == right.max.y == left.max.y == rect.max.y
      && (forall p :: Contains(right, p) <==> Contains(rect, p) && sep.max.x <= p.x)
      && (forall p :: Contains(left, p) <==> Contains(rect, p) && p.x <= sep.min.x)
  {
    var e := SeparatorEdges(SplitPoint(rect.min.x, Width(rect), fraction), width, pixelsPerPoint);
    var sep := Rect(Pos2(e.0, rect.min.y), Pos2(e.1, rect.max.y));
    (Clip(rect, RightOf(sep.max.x)), sep, Clip(rect, LeftOf(sep.min.x)))
  }

  /** The three regions `vsplit` returns: everything above the separator, the
      separator, everything below it. */
  function VSplitRegions(rect: Rect, fraction: real, width: real, pixelsPerPoint: real): (r: (Rect, Rect, Rect))
    requires 0.0 < pixelsPerPoint
    ensures var (above, sep, below) := r;
      && (sep.min.y, sep.max.y) == SeparatorEdges(SplitPoint(rect.min.y, Height(rect), fraction), width, pixelsPerPoint)
      && sep.min.x == above.min.x == below.min.x == rect.min.x
      && sep.max.x == above.max.x == below.max.x == rect.max.x
      && (forall p :: Contains(above, p) <==> Contains(rect, p) && p.y <= sep.min.y)
      && (forall p :: Contains(below, p) <==> Contains(rect, p) && sep.max.y <= p.y)
  {
    var e := SeparatorEdges(SplitPoint(rect.min.y, Height(rect), fraction), width, pixelsPerPoint);
    var sep := Rect(Pos2(rect.min.x, e.0), Pos2(rect.max.x, e.1));
    (Clip(rect, Above(sep.min.y)), sep, Clip(rect, Below(sep.max.y)))
  }

  /** When the separator lies inside the rectangle, the three regions of `hsplit`
      tile it: edge to edge, widths adding up, every point covered. */
  lemma HSplitTiles(rect: Rect, fraction: real, width: real, pixelsPerPoint: real)
    requires 0.0 < pixelsPerPoint
    requires var e := SeparatorEdges(SplitPoint(rect.min.x, Width(rect), fraction), width, pixelsPerPoint);
      rect.min.x <= e.0 <= e.1 <= rect.max.x
    ensures var (right, sep, left) := HSplitRegions(rect, fraction, width, pixelsPerPoint);
      && left.min.x == rect.min.x && left.max.x == sep.min.x
      && right.min.x == sep.max.x && right.max.x == rect.max.x
      && Width(left) + Width(sep) + Width(right) == Width(rect)
      && forall p :: Contains(rect, p) <==> Contains(left, p) || Contains(sep, p) || Contains(right, p)
  {
  }

  /** The same for `vsplit`, along y. */
  lemma VSplitTiles(rect: Rect, fraction: real, width: real, pixelsPerPoint: real)
    requires 0.0 < pixelsPerPoint
    requires var e := SeparatorEdges(SplitPoint(rect.min.y, Height(rect), fraction), width, pixelsPerPoint);
      rect.min.y <= e.0 <= e.1 <= rect.max.y
    ensures var (above, sep, below) := VSplitRegions(rect, fraction, width, pixelsPerPoint);
      && above.min.y == rect.min.y && above.max.y == sep.min.y
      && below.min.y == sep.max.y && below.max.y == rect.max.y
      && Height(above) + Height(sep) + Height(below) == Height(rect)
      && forall p :: Contains(rect, p) <==> Contains(above, p) || Contains(sep, p) || Contains(below, p)
  {
  }

  /** `hsplit` is `vsplit` seen in a mirror: on the transposed rectangle the same
      fraction and drag give the transposed regions, the pane above standing
      for the pane on the left. */
  lemma SplitMirror(rect: Rect, fraction: real, delta: real, extra: real, width: real, pixelsPerPoint: real)
    requires 0.0 < Width(rect) && 0.0 < pixelsPerPoint
    ensures var t := Transpose(rect);
      && ResolveFraction(fraction, delta, Width(rect), extra) == ResolveFraction(fraction, delta, Height(t), extra)
      && var (right, sep, left) := HSplitRegions(rect, fraction, width, pixelsPerPoint);
         var (above, tsep, below) := VSplitRegions(t, fraction, width, pixelsPerPoint);
         right == Transpose(below) && sep == Transpose(tsep) && left == Transpose(above)
  {
  }

  /** `Style::hsplit`. `fraction` is the caller's split fraction before this
      frame and `newFraction` what it writes back; `dragDelta` is the
      horizontal drag egui reports on `hitRegion`, the strip it registers for
      click-and-drag at the old fraction. Returns the right pane first. */
  method HSplit(style: Style, fraction: real, rect: Rect, dragDelta: real, pixelsPerPoint: real)
    returns (newFraction: real, hitRegion: Rect, right: Rect, separator: Rect, left: Rect)
    requires 0.0 < Width(rect) && 0.0 < pixelsPerPoint
    ensures Center(hitRegion).x == SplitPoint(rect.min.x, Width(rect), fraction) && Width(hitRegion) == style.separatorWidth
    ensures hitRegion.min.y == rect.min.y && hitRegion.max.y == rect.max.y
    ensures newFraction == ResolveFraction(fraction, dragDelta, Width(rect), style.separatorExtra)
    ensures (right, separator, left) == HSplitRegions(rect, newFraction, style.separatorWidth, pixelsPerPoint)
  {
    var sep := rect;
    var midpoint := SplitPoint(rect.min.x, Width(rect), fraction);
    sep := sep.(min := sep.min.(x := midpoint - style.separatorWidth * 0.5));
    sep := sep.(max := sep.max.(x := midpoint + style.separatorWidth * 0.5));
    hitRegion := sep;

    var range := rect.max.x - rect.min.x;
    newFraction := ResolveFraction(fraction, dragDelta, range, style.separatorExtra);

    midpoint := SplitPoint(rect.min.x, Width(rect), newFraction);
    sep := sep.(min := sep.min.(x := MapToPixel(midpoint - style.separatorWidth * 0.5, pixelsPerPoint)));
    sep := sep.(max := sep.max.(x := MapToPixel(midpoint + style.separatorWidth * 0.5, pixelsPerPoint)));

    right := Clip(rect, RightOf(sep.max.x));
    separator := sep;
    left := Clip(rect, LeftOf(sep.min.x));
  }

  /** `Style::vsplit`: `HSplit` along y. Returns the upper pane first. */
  method VSplit(style: Style, fraction: real, rect: Rect, dragDelta: real, pixelsPerPoint: real)
    returns (newFraction: real, hitRegion: Rect, above: Rect, separator: Rect, below: Rect)
    requires 0.0 < Height(rect) && 0.0 < pixelsPerPoint
    ensures Center(hitRegion).y == SplitPoint(rect.min.y, Height(rect), fraction) && Height(hitRegion) == style.separatorWidth
    ensures hitRegion.min.x == rect.min.x && hitRegion.max.x == rect.max.x
    ensures newFraction == ResolveFraction(fraction, dragDelta, Height(rect), style.separatorExtra)
    ensures (above, separator, below) == VSplitRegions(rect, newFraction, style.separatorWidth, pixelsPerPoint)
  {
    var sep := rect;
    var midpoint := SplitPoint(rect.min.y, Height(rect), fraction);
    sep := sep.(min := sep.min.(y := midpoint - style.separatorWidth * 0.5));
    sep := sep.(max := sep.max.(y := midpoint + style.separatorWidth * 0.5));
    hitRegion := sep;

    var range := rect.max.y - rect.min.y;
    newFraction := ResolveFraction(fraction, dragDelta, range, style.separatorExtra);

    midpoint := SplitPoint(rect.min.y, Height(rect), newFraction);
    sep := sep.(min := sep.min.(y := MapToPixel(midpoint - style.separatorWidth * 0.5, pixelsPerPoint)));
    sep := sep.(max := sep.max.(y := MapToPixel(midpoint + style.separatorWidth * 0.5, pixelsPerPoint)));

    above := Clip(rect, Above(sep.min.y));
    separator := sep;
    below := Clip(rect, Below(sep.max.y));
  }

}
