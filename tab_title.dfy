/**
  The decisions `Style::tab_title` makes when it lays out, paints and hit-tests
  one tab header: the size it asks for, whether it has a close button and where,
  what it paints, the colour of the label, and what it reports about the close
  button.

  Everything egui answers during the call is an input: the measured label
  (`into_galley`), the rectangle `allocate_at_least` hands back, whether the
  header is hovered, and the hover, press and click state of the close button's
  region. What would be painted is returned as a list of `DrawCmd`s.
 */
module TabTitle {
  import opened Wrappers
  import opened Geometry
  import opened Paint
  import opened DockStyle

  /** Horizontal space before the label (`offset.x`); the same is added after it. */
  const TextOffset: real := 8.0
  /** Vertical inset of the label from the top of the header. */
  const TextInsetY: real := 5.0
  /** Space between the label and the close button (`x_text_gap`). */
  const CloseTextGap: real := 5.0
  /** Every header is this tall, whatever the label's height. */
  const HeaderHeight: real := 24.0
  /** How far the cross sits inside the close button's square. */
  const CrossInset: real := 1.75

  /** The shaped label: its measured size, and whether its text carries its own colour. */
  datatype Galley = Galley(size: Vec2, hasColor: bool)

  /** What egui reports this frame for the header and its close button. */
  datatype Frame = Frame(
    rect: Rect,               // what `allocate_at_least` granted
    headerHovered: bool,
    pixelsPerPoint: real,
    closeHovered: bool,       // meaningful only when the close region exists
    closePressed: bool,       // the pointer is down on the close region
    closeClicked: bool)

  datatype TabTitleResult = TabTitleResult(
    desiredSize: Vec2,
    closeRegion: Option<Rect>,
    commands: seq<DrawCmd>,
    closeHovered: bool,
    closeClicked: bool)

  /** The side of the close button's square: the label height over 1.3. */
  function CloseSide(galley: Galley): (side: real)
    ensures side * 1.3 == galley.size.y
    ensures 0.0 <= galley.size.y ==> 0.0 <= side < galley.size.y || side == galley.size.y == 0.0
  {
    galley.size.y / 1.3
  }

  /** The size the header asks egui for. */
  function DesiredSize(style: Style, galley: Galley): (size: Vec2)
    ensures size.y == HeaderHeight
    ensures 0.0 <= galley.size.y ==> galley.size.x + 2.0 * TextOffset <= size.x
    ensures !style.showCloseButtons ==> size.x == galley.size.x + 2.0 * TextOffset
  {
    var size := Vec2(galley.size.x + 2.0 * TextOffset, galley.size.y);
    var size := if style.showCloseButtons then size.(x := size.x + CloseSide(galley) + CloseTextGap) else size;
    size.(y := HeaderHeight)
  }

  /** Enabling close buttons widens the header by exactly the button and its gap,
      and so strictly, for a label of non-negative height. */
  lemma CloseButtonsWidenHeader(style: Style, galley: Galley)
    ensures DesiredSize(style.(showCloseButtons := true), galley).x
         == DesiredSize(style.(showCloseButtons := false), galley).x + CloseSide(galley) + CloseTextGap
    ensures 0.0 <= galley.size.y ==>
      DesiredSize(style.(showCloseButtons := false), galley).x < DesiredSize(style.(showCloseButtons := true), galley).x
  {
  }

  /** The close button's region within the header `rect`: a square of side
      `CloseSide`, one gap to the right of the label, centred vertically; it
      exists only on an active or hovered header when close buttons are shown. */
  function CloseRegion(style: Style, galley: Galley, rect: Rect, active: bool, headerHovered: bool): (region: Option<Rect>)
    ensures region.Some? <==> (active || headerHovered) && style.showCloseButtons
    ensures region.Some? ==>
      && Width(region.value) == CloseSide(galley) && Height(region.value) == CloseSide(galley)
      && region.value.min.x == rect.min.x + TextOffset + galley.size.x + CloseTextGap
      && Center(region.value).y == Center(rect).y
  {
    if (active || headerHovered) && style.showCloseButtons then
      var pos := LeftTop(rect);
      var pos := pos.(x := pos.x + TextOffset + galley.size.x + CloseTextGap + CloseSide(galley) / 2.0);
      var pos := pos.(y := pos.y + Height(rect) / 2.0);
      Some(FromCenterSize(pos, Vec2(CloseSide(galley), CloseSide(galley))))
    else
      None
  }

  /** In a header at least as wide as it asked for, the close button sits after
      the label and keeps the trailing `TextOffset` free; in a header at least as
      tall as the button, it fits vertically too. */
  lemma CloseRegionInsideHeader(style: Style, galley: Galley, rect: Rect, active: bool, headerHovered: bool)
    requires 0.0 <= galley.size.y
    requires DesiredSize(style, galley).x <= Width(rect)
    requires CloseRegion(style, galley, rect, active, headerHovered).Some?
    ensures var r := CloseRegion(style, galley, rect, active, headerHovered).value;
      && rect.min.x + TextOffset + galley.size.x < r.min.x
      && r.max.x + TextOffset <= rect.max.x
      && (CloseSide(galley) <= Height(rect) ==> rect.min.y <= r.min.y && r.max.y <= rect.max.y)
  {
  }

  /** The header body: on the active tab an outline-coloured rectangle one
      device pixel wider on each side, with the background colour over it one
      device pixel down from the top; on an active tab being dragged, a
      1-unit outline only; on any other tab, nothing. */
  function BodyCommands(style: Style, rect: Rect, active: bool, dragged: bool, px: real): (cmds: seq<DrawCmd>)
    ensures |cmds| == (if active && !dragged then 2 else if active then 1 else 0)
    ensures active && !dragged ==>
      && cmds[0].FilledRect? && cmds[0].fill == style.tabOutlineColor
      && cmds[1].FilledRect? && cmds[1].fill == style.tabBackgroundColor
      && cmds[0].rounding == cmds[1].rounding == style.tabRounding
    ensures active && dragged ==> cmds == [StrokedRect(rect, style.tabRounding, Stroke(1.0, style.tabOutlineColor))]
  {
    if active && !dragged then
      var tab := rect;
      var tab := tab.(min := tab.min.(x := tab.min.x - px));
      var tab := tab.(max := tab.max.(x := tab.max.x + px));
      var outline := FilledRect(tab, style.tabRounding, style.tabOutlineColor);
      var tab := tab.(min := tab.min.(x := tab.min.x + px));
      var tab := tab.(max := tab.max.(x := tab.max.x - px));
      var tab := tab.(min := tab.min.(y := tab.min.y + px));
      [outline, FilledRect(tab, style.tabRounding, style.tabBackgroundColor)]
    else if active then
      [StrokedRect(rect, style.tabRounding, Stroke(1.0, style.tabOutlineColor))]
    else
      []
  }

  /** On the active, resting tab the outline shows by `px` on the left, right and
      top of the background and not at all at the bottom, so the tab runs into
      the panel below; the background covers the header's own rectangle but
      its top `px`. */
  lemma OutlineShowsOnThreeSides(style: Style, rect: Rect, px: real)
    ensures var cmds := BodyCommands(style, rect, true, false, px);
      var outline, fill := cmds[0].rect, cmds[1].rect;
      && fill.min.x - outline.min.x == px && outline.max.x - fill.max.x == px
      && fill.min.y - outline.min.y == px && fill.max.y == outline.max.y
      && fill == rect.(min := rect.min.(y := rect.min.y + px))
  {
  }

  /** The colour the label is drawn in, unless it brings its own. */
  function TextColorOverride(style: Style, galley: Galley, focused: bool): (c: Option<Color32>)
    ensures c.None? <==> galley.hasColor
    ensures c.Some? ==> c.value == if focused then style.tabTextColorFocused else style.tabTextColorUnfocused
  {
    if galley.hasColor then None
    else if focused then Some(style.tabTextColorFocused)
    else Some(style.tabTextColorUnfocused)
  }

  /** The close button: a rounded backdrop when hovered, then a cross made of
      the two diagonals of the button shrunk by `CrossInset`, drawn in the
      active colour on a focused tab or while the button is pressed. */
  function CloseCommands(style: Style, region: Rect, focused: bool, hovered: bool, pressed: bool): (cmds: seq<DrawCmd>)
    ensures |cmds| == if hovered then 3 else 2
    ensures hovered ==> cmds[0] == FilledRect(region, RoundingSame(2.0), style.closeTabBackgroundColor)
    ensures var a, b := cmds[|cmds| - 2], cmds[|cmds| - 1];
      && a.LineSegment? && b.LineSegment?
      && a.stroke == b.stroke
      && a.stroke.width == 1.0
      && a.stroke.color == (if focused || pressed then style.closeTabActiveColor else style.closeTabColor)
      && a.p == Pos2(region.min.x + CrossInset, region.min.y + CrossInset)
      && a.q == Pos2(region.max.x - CrossInset, region.max.y - CrossInset)
      && b.p == Pos2(region.max.x - CrossInset, region.min.y + CrossInset)
      && b.q == Pos2(region.min.x + CrossInset, region.max.y - CrossInset)
      && (a.p.x + a.q.x) / 2.0 == (b.p.x + b.q.x) / 2.0 == Center(region).x
      && (a.p.y + a.q.y) / 2.0 == (b.p.y + b.q.y) / 2.0 == Center(region).y
  {
    var backdrop := if hovered then [FilledRect(region, RoundingSame(2.0), style.closeTabBackgroundColor)] else [];
    var cross := Shrink(region, CrossInset);
    var color := if focused || pressed then style.closeTabActiveColor else style.closeTabColor;
    backdrop + [LineSegment(LeftTop(cross), RightBottom(cross), Stroke(1.0, color)),
                LineSegment(RightTop(cross), LeftBottom(cross), Stroke(1.0, color))]
  }

  /** `Style::tab_title`. */
  function TabTitle(style: Style, galley: Galley, focused: bool, active: bool, dragged: bool, frame: Frame): (out: TabTitleResult)
    requires 0.0 < frame.pixelsPerPoint
    ensures out.desiredSize == DesiredSize(style, galley)
    ensures out.closeRegion == CloseRegion(style, galley, frame.rect, active, frame.headerHovered)
    ensures out.closeRegion.None? ==> !out.closeHovered && !out.closeClicked
    ensures out.closeRegion.Some? ==> out.closeHovered == frame.closeHovered && out.closeClicked == frame.closeClicked
    ensures !style.showCloseButtons ==> !out.closeHovered && !out.closeClicked
    ensures var body := BodyCommands(style, frame.rect, active, dragged, DevicePixel(frame.pixelsPerPoint));
      && |body| < |out.commands|
      && out.commands[..|body|] == body
      && out.commands[|body|] == Text(Pos2(frame.rect.min.x + TextOffset, frame.rect.min.y + TextInsetY),
                                      TextColorOverride(style, galley, focused))
      && out.commands[|body| + 1..] == if out.closeRegion.Some?
           then CloseCommands(style, out.closeRegion.value, focused, frame.closeHovered, frame.closePressed)
           else []
  {
    var px := DevicePixel(frame.pixelsPerPoint);
    var desired := DesiredSize(style, galley);
    var region := CloseRegion(style, galley, frame.rect, active, frame.headerHovered);
    var body := BodyCommands(style, frame.rect, active, dragged, px);
    var textPos := Shrink2(frame.rect, Vec2(TextOffset, TextInsetY)).min;
    var text := Text(textPos, TextColorOverride(style, galley, focused));
    var close := if region.Some?
      then CloseCommands(style, region.value, focused, frame.closeHovered, frame.closePressed)
      else [];
    var hovered, clicked := if region.Some? then frame.closeHovered else false,
                            if region.Some? then frame.closeClicked else false;
    var commands := body + [text] + close;
    assert textPos == Pos2(frame.rect.min.x + TextOffset, frame.rect.min.y + TextInsetY);
    assert commands[..|body|] == body && commands[|body|] == text && commands[|body| + 1..] == close;
    TabTitleResult(desired, region, commands, hovered, clicked)
  }

  /** A close cross is drawn exactly when the close region exists. */
  lemma CrossDrawnIffCloseRegion(style: Style, galley: Galley, focused: bool, active: bool, dragged: bool, frame: Frame)
    requires 0.0 < frame.pixelsPerPoint
    ensures var out := TabTitle(style, galley, focused, active, dragged, frame);
      (exists i :: 0 <= i < |out.commands| && out.commands[i].LineSegment?) <==> out.closeRegion.Some?
  {
    var out := TabTitle(style, galley, focused, active, dragged, frame);
    var body := BodyCommands(style, frame.rect, active, dragged, DevicePixel(frame.pixelsPerPoint));
    if out.closeRegion.Some? {
      assert out.commands[|out.commands| - 1].LineSegment?;
    } else {
      assert out.commands == body + [out.commands[|body|]];
      forall i | 0 <= i < |out.commands|
        ensures !out.commands[i].LineSegment?
      {
        if i < |body| {
          assert out.commands[i] == body[i];
        }
      }
    }
  }

}
