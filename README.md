# egui_dock style: a Dafny model

This project models `src/style.rs` of egui_dock, the styling and layout code of a
tabbed docking panel system built on the egui immediate-mode GUI toolkit. It
covers three parts:

- **The split resolver** (`Style::hsplit`, `Style::vsplit`). The dock tree owns a
  split fraction. Each frame, the resolver moves that fraction by the drag on the
  separator and clamps it so the separator keeps `separator_extra` units away
  from both edges. It then cuts the rectangle into two panes and the
  pixel-snapped separator strip between them.
- **The tab header** (`Style::tab_title`). This covers the size a header asks
  for, whether it has a close button and where, what it paints in each
  active/dragged state, the label's colour, and the close button's hover and
  click report.
- **The style record** (`Style`, `Style::default`, `Style::from_egui`) and its
  chained `StyleBuilder`.

Modules, one per concern:

| file | module | contents |
|---|---|---|
| `wrappers.dfy` | `Wrappers` | `Option` |
| `geometry.dfy` | `Geometry` | `Pos2`, `Vec2`, `Rect`, `intersect`, the half-planes of `Rect::everything_*`, `f32::round`, snapping to device pixels |
| `paint.dfy` | `Paint` | `Color32`, `Rounding`, `Margin`, `Stroke`, and the painter calls as `DrawCmd` values |
| `style.dfy` | `DockStyle` | `Style`, its defaults, `from_egui`, the `StyleBuilder` |
| `split.dfy` | `Split` | fraction clamping, separator placement, `HSplit`/`VSplit` |
| `tab_title.dfy` | `TabTitle` | the header layout, paint and hit-test decisions |

Modelling choices:

- Coordinates and sizes are `real`.
- The caller's `fraction: &mut f32` becomes an input `fraction` and an output
  `newFraction`. `HSplit` and `VSplit` are methods. They build the separator
  field by field as the source does, and are specified by the functions
  `ResolveFraction` and `HSplitRegions`/`VSplitRegions`.
- `Rect::everything_right_of` and its siblings are unbounded. `Clip` intersects
  a rectangle with such a half-plane. `ClipIsIntersect` shows that this equals
  `Rect::intersect` with any finite box that reaches past the rectangle on the
  open sides.
- `StyleBuilder`'s setters take the builder by value and return it, so they are
  functions on a `StyleBuilder` value. Each setter promises to change only its
  own field, stated with `SameExcept` over an enumeration of the fields.
  `FieldsDetermineStyle` shows that this enumeration is complete.
- `tab_title` is a pure function. egui's answers during the call are inputs: the
  galley size and its has-colour flag, the granted rectangle, the header hover
  flag, and the close region's hover, press and click flags. The shapes it would
  paint are returned, in order, as a list of `DrawCmd`s.

Behaviour worth knowing, as the code has it:

- The clamp bounds are `m = min(extra / range, 1)` and `1 - m`, put in order.
  When the rectangle is shorter than `2 * separator_extra`, the code does not pin
  the fraction. The bounds swap round to `[1 - m, m]`, which widens as the
  rectangle shrinks. When `separator_extra >= range` the bounds are `[0, 1]`.
  The fraction is pinned only when `range == 2 * separator_extra`
  (`BoundsWhenMarginExceedsHalf`, `BoundsWhenMarginCoversRange`,
  `BoundsCollapseIff`).
- The doc comment of `with_separator_extra` says a bigger margin allows less
  offset. That holds only while `2 * separator_extra <= range`
  (`LargerMarginNarrowsBelowHalf`). Past half the rectangle, a bigger margin
  widens the interval again (`LargerMarginWidensAboveHalf`). On a 400-unit
  rectangle, a margin of 200 pins the fraction at 1/2, and a margin of 300
  allows `[0.25, 0.75]` (`LargerMarginScenario`).
- A rectangle of zero length along the split axis does not give a degenerate
  but well-defined split. Without a drag, the caller's stored fraction becomes
  NaN and never recovers, and every later midpoint is NaN (see "## Left out").
- `hsplit` returns the right-hand pane first and the left-hand pane last.
  `vsplit` returns the upper pane first.
- The doc comment of `from_egui` lists nine overwritten fields. The code also
  overwrites `tab_text_color_unfocused` and `tab_text_color_focused`
  (`FromEguiOverwritesUndocumentedFields`).

## Model

| member | source | states |
|---|---|---|
| `Geometry.Intersect` | src/style.rs:133-137 | a point lies in `a.intersect(b)` iff it lies in both `a` and `b` |
| `Geometry.Clip` | src/style.rs:174-178 | a point lies in a rect clipped by an `everything_*` half-plane iff it lies in the rect and in the half-plane; the sides along the cut keep the rect's extent |
| `Geometry.ClipIsIntersect` | src/style.rs:134-136 | clipping by a half-plane equals `intersect` with any box that has the half-plane's edge and reaches past the rect elsewhere |
| `Geometry.RoundHalfAway` | src/style.rs:125 | `f32::round` lands within 1/2 of its argument |
| `Geometry.RoundHalfAwayAtHalves` | src/style.rs:166 | an exact half rounds away from zero |
| `Geometry.RoundHalfAwayMonotone` | src/style.rs:130 | rounding keeps order |
| `Geometry.MapToPixelError` | src/style.rs:122-126 | a snapped coordinate is within half a device pixel of the exact one |
| `Geometry.MapToPixelMonotone` | src/style.rs:127-131 | snapping keeps coordinates in order |
| `Geometry.MapToPixel` | src/style.rs:122-131 | `map_to_pixel(v, ppp, f32::round)` lands on the device-pixel grid: the snapped value times `ppp` is a whole number |
| `Geometry.FromCenterSize` | src/style.rs:215 | `Rect::from_center_size` has the given centre, width and height |
| `Geometry.Shrink2` | src/style.rs:246-248 | `shrink2` keeps the centre and takes twice the inset off each dimension |
| `Geometry.Shrink` | src/style.rs:273 | `shrink(d)` moves each corner inwards by `d` on both axes and keeps the centre |
| `Split.Clamp` | src/style.rs:118 | `clamp` returns a value in `[lo, hi]`: the input when inside, the nearer bound when outside |
| `Split.FractionBounds` | src/style.rs:114-117 | the reordered bounds satisfy `lo <= hi`, `lo + hi == 1` and `lo <= 1/2 <= hi`; with a non-negative margin they lie in `[0, 1]` |
| `Split.ResolveFraction` | src/style.rs:112-119 | the new fraction lies in the clamp bounds, and equals `fraction + delta / range` whenever that is in bounds |
| `Split.BoundsWhenMarginFits` | src/style.rs:115-116 | with `0 <= extra` and `2 * extra <= range` the bounds are `extra / range` and `1 - extra / range` |
| `Split.BoundsWhenMarginCoversRange` | src/style.rs:156-158 | with `extra >= range` the bounds are exactly `[0, 1]` |
| `Split.BoundsWhenMarginExceedsHalf` | src/style.rs:117 | with `range / 2 < extra < range` the bounds swap to `[1 - extra / range, extra / range]`, a non-empty interval |
| `Split.BoundsCollapseIff` | src/style.rs:114-117 | the bounds meet iff `2 * extra == range` |
| `Split.ResolveAtRest` | src/style.rs:118 | with zero drag, a fraction already in bounds is unchanged |
| `Split.ResolveIdempotent` | src/style.rs:159 | resolving a resolved fraction again with zero drag changes nothing |
| `Split.MinimumPaneSize` | src/style.rs:114-121 | when the margin fits twice, the split point stays at least `separator_extra` from both ends |
| `Split.DragPastBoundScenario` | src/style.rs:113-118 | range 400 with margin 175 gives bounds `[0.4375, 0.5625]`; a +200 drag from 0.5 stops at 0.5625 |
| `Split.LargerMarginNarrowsBelowHalf` | src/style.rs:343-344 | while `2 * extra <= range`, a larger margin gives a lower bound at least as high and an upper bound at least as low |
| `Split.LargerMarginWidensAboveHalf` | src/style.rs:114-117 | once `range <= 2 * extra`, a larger margin gives a lower bound at least as low and an upper bound at least as high, against the setter's doc comment |
| `Split.LargerMarginScenario` | src/style.rs:114-117 | on a 400-unit rectangle, margin 200 gives bounds `[0.5, 0.5]` and margin 300 gives `[0.25, 0.75]` |
| `Split.SplitPoint` | src/style.rs:104 | the midpoint `min + extent * fraction` is `min` at fraction 0, `min + extent` at fraction 1, and inside the axis for a fraction in `[0, 1]` |
| `Split.SeparatorEdges` | src/style.rs:121-131 | both separator edges, snapped with `map_to_pixel`, lie on the device-pixel grid |
| `Split.SeparatorEdgesNearExact` | src/style.rs:121-131 | each snapped separator edge is within half a device pixel of `midpoint ± separator_width / 2` |
| `Split.SeparatorWidthWithinPixel` | src/style.rs:162-172 | snapped edges stay in order, and the snapped width is within one device pixel of `separator_width` |
| `Split.SeparatorInsideAxis` | src/style.rs:115-131 | when the margin covers half the separator plus half a pixel, the snapped separator lies inside the rect |
| `Split.HSplitRegions` | src/style.rs:121-137 | `hsplit` returns (rect right of `sep.max.x`, separator, rect left of `sep.min.x`); all three keep the rect's y-range; the separator's x-edges are the snapped edges at the new fraction |
| `Split.VSplitRegions` | src/style.rs:162-178 | `vsplit` returns (rect above `sep.min.y`, separator, rect below `sep.max.y`); all three keep the rect's x-range |
| `Split.HSplitTiles` | src/style.rs:133-137 | with the separator inside the rect, left, separator and right meet edge to edge, their widths sum to the rect's, and they cover exactly the rect |
| `Split.VSplitTiles` | src/style.rs:174-178 | the same along y for `vsplit` |
| `Split.SplitMirror` | src/style.rs:140-179 | `hsplit` on a rect is `vsplit` on the transposed rect, transposed back: same fraction, and right/separator/left match below/separator/above |
| `Split.HSplit` | src/style.rs:99-138 | the strip registered for dragging is centred on the old split point with the separator's width; the fraction written back is `ResolveFraction`; the returned regions are `HSplitRegions` at the new fraction |
| `Split.VSplit` | src/style.rs:140-179 | the same along y, with `VSplitRegions` |
| `TabTitle.DesiredSize` | src/style.rs:196-206 | the desired height is always 24; for a label of non-negative height the width is at least `text.x + 16`; without close buttons it is exactly that |
| `TabTitle.CloseSide` | src/style.rs:197 | the close button's side times 1.3 is the label height, so for a non-empty label the button is shorter than the label |
| `TabTitle.CloseButtonsWidenHeader` | src/style.rs:202-205 | close buttons add exactly `text.y / 1.3 + 5` to the desired width, a strict increase for a label of non-negative height |
| `TabTitle.CloseRegion` | src/style.rs:211-219 | the close region exists iff `(active or header hovered) and show_close_buttons`; it is a square of side `text.y / 1.3`, starting 5 after the text and centred vertically on the header |
| `TabTitle.CloseRegionInsideHeader` | src/style.rs:208-215 | in a header at least as wide as desired, the close button starts after the text and leaves the trailing 8 units free |
| `TabTitle.BodyCommands` | src/style.rs:220-244 | active and resting: an outline-coloured fill, then a background fill; active and dragged: a 1-unit outline stroke only; otherwise nothing |
| `TabTitle.OutlineShowsOnThreeSides` | src/style.rs:222-232 | the outline shows one device pixel beyond the background on the left, right and top, and not at the bottom |
| `TabTitle.TextColorOverride` | src/style.rs:250-256 | no override iff the label has its own colour; otherwise the focused or unfocused tab text colour |
| `TabTitle.CloseCommands` | src/style.rs:265-288 | a backdrop iff hovered, then two 1-unit strokes of one colour, active iff focused or pressed: the diagonals of the button inset by 1.75 (top-left to bottom-right, then top-right to bottom-left), crossing at its centre |
| `TabTitle.TabTitle` | src/style.rs:182-294 | the close report is `(false, false)` when there is no close region (always when close buttons are off) and egui's report otherwise; paints body, then text at `rect.min + (8, 5)`, then the close button |
| `TabTitle.CrossDrawnIffCloseRegion` | src/style.rs:265-293 | a close cross is painted iff the close region exists |
| `DockStyle.FieldsDetermineStyle` | src/style.rs:7-33 | the field enumeration covers the whole record: styles agreeing on every field are equal |
| `DockStyle.DefaultStyle` | src/style.rs:35-63 | the defaults are the values the setters' doc comments give: padding `None`, black border 0 wide, selection `(0, 191, 255)` at half strength, separator 1 wide with margin 175 in black, white tab bar, black outline, close buttons shown |
| `DockStyle.FromEgui` | src/style.rs:78-97 | every field outside the theme-derived ones keeps its default; the text colours come from the theme; separator, border, outline and close background share `widgets.active.bg_fill` |
| `DockStyle.FromEguiOverwritesUndocumentedFields` | src/style.rs:66-87 | some theme makes `from_egui` differ from the defaults outside the documented list |
| `DockStyle.StyleBuilder.WithPadding` | src/style.rs:310-313 | sets `padding` and changes no other field |
| `DockStyle.StyleBuilder.WithBorderColor` | src/style.rs:317-320 | sets `border_color` and changes no other field |
| `DockStyle.StyleBuilder.WithBorderWidth` | src/style.rs:324-327 | sets `border_width` and changes no other field |
| `DockStyle.StyleBuilder.WithSelectionColor` | src/style.rs:331-334 | sets `selection_color` and changes no other field |
| `DockStyle.StyleBuilder.WithSeparatorWidth` | src/style.rs:338-341 | sets `separator_width` and changes no other field |
| `DockStyle.StyleBuilder.WithSeparatorExtra` | src/style.rs:346-349 | sets `separator_extra` and changes no other field |
| `DockStyle.StyleBuilder.WithSeparatorColor` | src/style.rs:353-356 | sets `separator_color` and changes no other field |
| `DockStyle.StyleBuilder.WithTabBarBackground` | src/style.rs:360-363 | sets `tab_bar_background_color` and changes no other field |
| `DockStyle.StyleBuilder.WithTabOutlineColor` | src/style.rs:367-370 | sets `tab_outline_color` and changes no other field |
| `DockStyle.StyleBuilder.WithTabRounding` | src/style.rs:374-377 | sets `tab_rounding` and changes no other field |
| `DockStyle.StyleBuilder.WithTabBackgroundColor` | src/style.rs:381-384 | sets `tab_background_color` and changes no other field |
| `DockStyle.StyleBuilder.WithCloseTabColor` | src/style.rs:388-391 | sets `close_tab_color` and changes no other field |
| `DockStyle.StyleBuilder.WithCloseTabActiveColorColor` | src/style.rs:395-398 | sets `close_tab_active_color` and changes no other field |
| `DockStyle.StyleBuilder.WithCloseTabBackgroundColorColor` | src/style.rs:402-408 | sets `close_tab_background_color` and changes no other field |
| `DockStyle.StyleBuilder.ShowCloseButtons` | src/style.rs:412-415 | sets `show_close_buttons` and changes no other field |
| `DockStyle.SameChangesSameStyle` | src/style.rs:308-415 | two changes of one style that touch only a set of fields and agree there give the same style, so setters on distinct fields commute |
| `DockStyle.SeparatorSettersCommute` | src/style.rs:338-349 | on any builder, `with_separator_extra` and `with_separator_width` commute |
| `DockStyle.StyleBuilder.New` | src/style.rs:303-306 | building a fresh builder straight away gives `Style::default()` |
| `DockStyle.StyleBuilder.Build` | src/style.rs:417-421 | `build` hands over the carried style whole: wrapping the result again gives back the builder |
| `DockStyle.BuilderChainSetsOnlyItsFields` | src/style.rs:302-421 | the chain `new().with_separator_extra(e).with_separator_width(w).show_close_buttons(b).build()` gives the defaults with exactly those three fields replaced, and the reversed chain gives the same style |

## Left out

- egui interaction is not modelled. This covers `allocate_rect`,
  `allocate_at_least`, `interact`, `drag_delta`, `hovered`, `clicked` and
  `interact_pointer_pos`. Their results are inputs: the drag delta, the granted
  header rectangle, and the hover, press and click flags. The hover cursor hints
  are dropped.
- The header's own `Response`, returned first by `tab_title`, is egui state and
  is not part of the result. The tab `Id` only scopes egui's hit-testing of the
  close region, so it is not modelled either.
- Painting itself is not modelled: `rect_filled`, `rect_stroke`, `line_segment`
  and `TextShape`. The model returns the sequence of calls as `DrawCmd` values.
  The text shape's galley, underline and angle are not recorded.
- Text shaping (`into_galley`) is not modelled. The galley's size and its
  has-colour flag are inputs.
- `f32` arithmetic is not modelled: rounding error, NaN and infinity.
  `HSplit` and `VSplit` require a positive extent, which excludes a zero-length
  rectangle. For such a rectangle, src/style.rs:115 divides the margin by zero.
  That gives `+inf` (or a NaN for a zero margin, which `f32::min` discards), so
  the bounds stay `[0, 1]`. On a frame without a drag, src/style.rs:118 then
  computes `0 / 0`. `f32::clamp` passes the NaN through into the caller's
  fraction, so the fraction stays NaN on every later frame.
- `HSplit`, `VSplit`: a rectangle of negative extent along the split axis is
  also excluded by that requirement, although the source computes finite bounds
  for it. Such a rectangle can arise: a pane of `hsplit` whose separator was
  snapped past the outer edge (a 100-unit rectangle, margin 175, fraction 0) has
  a negative width, and a nested split in the same direction then sees
  `range < 0`.
- `map_to_pixel` lives in the utils module, which is not part of this model. It
  is modelled as `round(v * pixels_per_point) / pixels_per_point`, with
  `f32::round` (the rounding function passed in) rounding halves away from zero.
- Colour arithmetic is not evaluated. `Color32::linear_multiply` (in the default
  `selection_color` and in `from_egui`) is kept as the term
  `LinearMultiplied(base, factor)`. The theme colours that `from_egui` reads from
  `egui::Visuals` are inputs (`EguiVisuals`).
- `FromEgui`: its contract does not name the theme value behind each of the
  eleven overwritten fields. It states that the other fields keep their defaults,
  and where the text colours and the `widgets.active.bg_fill` colour go.
