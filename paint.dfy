/**
  egui's painting vocabulary as plain values: colours, corner rounding, margins,
  strokes, and the shapes the dock style hands to the painter.
 */
module Paint {
  import opened Wrappers
  import opened Geometry

  newtype byte = x: int | 0 <= x < 256

  /** `Color32`: a colour with alpha. The linear-space multiplication of
      `Color32::linear_multiply` is not evaluated; a colour derived that way is
      kept as the term `LinearMultiplied(base, factor)`. */
  datatype Color32 =
    | Rgba(r: byte, g: byte, b: byte, a: byte)
    | LinearMultiplied(base: Color32, factor: real)

  /** `Color32::from_rgb`: an opaque colour. */
  function FromRgb(r: byte, g: byte, b: byte): Color32 {
    Rgba(r, g, b, 255)
  }

  const Black: Color32 := FromRgb(0, 0, 0)
  const DarkGray: Color32 := FromRgb(96, 96, 96)
  const Gray: Color32 := FromRgb(160, 160, 160)
  const White: Color32 := FromRgb(255, 255, 255)

  /** Corner radii of a rectangle (`Rounding`). */
  datatype Rounding = Rounding(nw: real, ne: real, sw: real, se: real)

  /** `Rounding::default()`: square corners. */
  const NoRounding: Rounding := Rounding(0.0, 0.0, 0.0, 0.0)

  /** `Rounding::same`: one radius for all four corners. */
  function RoundingSame(radius: real): Rounding {
    Rounding(radius, radius, radius, radius)
  }

  /** Inner spacing of a panel (`egui::style::Margin`). */
  datatype Margin = Margin(left: real, right: real, top: real, bottom: real)

  datatype Stroke = Stroke(width: real, color: Color32)

  /** One call to the painter: `rect_filled`, `rect_stroke`, `line_segment`, or
      adding a text shape at `pos` whose colour is overridden when
      `overrideColor` is present. */
  datatype DrawCmd =
    | FilledRect(rect: Rect, rounding: Rounding, fill: Color32)
    | StrokedRect(rect: Rect, rounding: Rounding, stroke: Stroke)
    | LineSegment(p: Pos2, q: Pos2, stroke: Stroke)
    | Text(pos: Pos2, overrideColor: Option<Color32>)

}
