/** Plain value types for the toolkit's points and rectangles, with
    `Float`/`CGFloat` coordinates read as exact reals. */
module Geometry {

  /** A point in a view's local coordinates (CGPoint). */
  datatype Point = Point(x: real, y: real)

  /** An axis-aligned rectangle: origin and size (CGRect). */
  datatype Rect = Rect(x: real, y: real, width: real, height: real)
}
