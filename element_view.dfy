/** One rating element (FDRatingElementView and its star, square and circle
    subclasses): its frame and the fill mask that clips the filled shape. */
module ElementView {
  import opened Geometry

  /** Which concrete element view is built (FDRatingViewStyle). */
  datatype ElementStyle = Star | Square | Circle

  /** The path held by the element's `fillMask` layer: a rectangle, or the
      oval inscribed in a rectangle (only the circle's initial mask). */
  datatype MaskPath = RectPath(bounds: Rect) | OvalPath(bounds: Rect)

  /** The region that shows `value` of an element with frame `frame`: the
      leftmost `frame.width * value` at full height, in local coordinates.
      No clamping is applied to `value`. */
  function FillRect(frame: Rect, value: real): Rect
  {
    Rect(0.0, 0.0, frame.width * value, frame.height)
  }

  /** The mask starts at the element's own origin and always has the
      frame's height; only its width depends on the value. */
  lemma FillRectAnchoredFullHeight(frame: Rect, v: real, w: real)
    ensures FillRect(frame, v).x == 0.0 && FillRect(frame, v).y == 0.0
    ensures FillRect(frame, v).height == frame.height
    ensures FillRect(frame, v).height == FillRect(frame, w).height
  {
  }

  /** An empty value shows nothing, a value of one shows the whole frame. */
  lemma FillRectEnds(frame: Rect)
    ensures FillRect(frame, 0.0).width == 0.0
    ensures FillRect(frame, 1.0).width == frame.width
  {
  }

  /** For a frame of positive width, the mask grows strictly with the value. */
  lemma FillRectStrictlyIncreasing(frame: Rect, v: real, w: real)
    requires frame.width > 0.0
    ensures v < w <==> FillRect(frame, v).width < FillRect(frame, w).width
  {
  }

  /** Values outside [0, 1] are not clamped: they give a mask wider than the
      frame or of negative width. */
  lemma FillRectUnclamped(frame: Rect, v: real)
    requires frame.width > 0.0
    ensures v > 1.0 ==> FillRect(frame, v).width > frame.width
    ensures v < 0.0 ==> FillRect(frame, v).width < 0.0
  {
    if v > 1.0 {
      assert frame.width * (v - 1.0) > 0.0;
      assert frame.width * v == frame.width * (v - 1.0) + frame.width;
      assert FillRect(frame, v).width == frame.width * v;
    }
  }

  class RatingElement {
    /** The concrete subclass this element stands for. */
    const style: ElementStyle
    var frame: Rect
    var fillMask: MaskPath

    /** The designated initializer of the three subclasses: each computes the
        fill width from its frame and initial fill; the circle clips with the
        inscribed oval, the star and the square with the rectangle. */
    constructor (frame: Rect, fill: real, style: ElementStyle)
      ensures this.frame == frame && this.style == style
      ensures fillMask.bounds == FillRect(frame, fill)
      ensures fillMask.OvalPath? <==> style == Circle
    {
      this.frame := frame;
      this.style := style;
      var fillWidth := frame.width * fill;
      var fillBounds := Rect(0.0, 0.0, fillWidth, frame.height);
      if style == Circle {
        fillMask := OvalPath(fillBounds);
      } else {
        fillMask := RectPath(fillBounds);
      }
    }

    /** Replaces the mask by the rectangle showing `value` of the frame; the
        frame stays as it is, and `animated` has no effect. */
    method ChangeFillValue(value: real, animated: bool)
      modifies this`fillMask
      ensures fillMask == RectPath(FillRect(frame, value))
      ensures frame == old(frame)
    {
      var fillWidth := frame.width * value;
      var fillPath := RectPath(Rect(0.0, 0.0, fillWidth, frame.height));
      fillMask := fillPath;
    }
  }
}
