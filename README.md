# FDRatingView, modelled in Dafny

FDRatingView is a rating widget: a row of star, square or circle elements,
each filled from the left by a fraction, that together show a rating value.
This project models the three pieces of its logic that do not depend on the
UI toolkit. Swift `Float` and `CGFloat` are read as exact reals.

- `RatingView` (FDRatingView.swift). A class holding the widget frame and its
  elements. The initializer sets the frame's width to `(h + spacing) * n - spacing`.
  It places `n` square frames of side `h`, one stride of `h + spacing` apart,
  and hands the rating to them with the source's greedy loop. `Set` reruns the
  same loop over the existing elements. Both loops are specified by the
  reference function `Distribute`. The lemmas prove its closed form: element
  `k` shows `value - k` clamped to [0, 1]. The converse lemma lets the loops
  keep that closed form as their invariant, with `Remaining` as the value
  still to hand out. The lemmas also prove the bounds of `Distribute`, its
  staircase shape, its sum and its saturation.
- `StarShape` (Star.swift). `StarPathInRect` keeps the source's loop, with
  its running `angle` and `firstPoint` flag. It builds exactly the reference
  outline `StarOutline`: one move to the top vertex, two line-tos per point,
  then one close. Dafny cannot evaluate `cos`, `sin` or `M_PI`, so they come
  in as a `Trig` parameter. Every point is stated through `PointFrom` over
  them.
- `ElementView` (FDRatingElementView.swift and the three subclass
  initializers). A class with the element's `frame` and its `fillMask`.
  `ChangeFillValue` replaces the mask with the rectangle
  `(0, 0, frame.width * v, frame.height)` and leaves the frame alone.
- `Geometry`: the `Point` and `Rect` value types.

A client method, `RatingView.RedisplaySameValue`, builds a row, moves and
resizes the widget, and sets the same value again. It shows that the fill values do not change, and that for
star and square rows the masks do not change either.

Observations from the code:
- The public `numberOfElements` property (FDRatingView.swift:31) is never
  assigned by the initializer. It stays 5 whatever count was asked for. The
  model keeps it that way.
- A circle element's first mask is the oval inscribed in the fill rectangle
  (FDCircleView.swift:77). `changeFillValue` always installs a rectangle, so
  calling `set(value:)` again with the initial value turns a circle's mask
  from an oval into a rectangle. The fill values stay the same.
- The mask width is not clamped. Values outside [0, 1] give a mask wider than
  the frame or of negative width (`FillRectUnclamped`). A clamped mask is
  what one would expect, but the code does not clamp, and the model follows
  the code.
- `1...numberOfElements` and `1...pointsOnStar` trap when the count is below
  1. The count is an unsigned integer, so the first traps only at 0; the
  second traps at any value below 1. The model states this as `requires`
  clauses, not as an error result: the source has no error path here.

## Model

| member | source | states |
|---|---|---|
| `RatingView.RatingView.constructor` | FDRatingView/FDRatingView.swift:74-123 | The frame keeps its origin and height and gets width `RowWidth(h, spacing, n)` = `(h + spacing) * n - spacing`. There are exactly `n` fresh elements of the chosen style. Element `i` has frame `ElementFrame(h, spacing, i)` and a mask of width `frame.width * fills[i]` (an oval only for circles). The fill values are `Distribute(value, n)`, and `numberOfElements` stays 5. The element side `h` is recorded as `elementSize`, so a later change to the widget frame does not affect `Set`. Requires `n >= 1`. |
| `RatingView.RatingView.Set` | FDRatingView/FDRatingView.swift:188-204 | The new fill values are `Distribute(value, n)`, whatever the old ones were, so two calls with the same value agree. Each element's mask becomes the rectangle for its new share. It may change only the elements' masks and the ghost record of fill values. The element list, the element frames, the widget frame, `elementSize` and `numberOfElements` are unchanged. `Set` never reads the widget frame. |
| `RatingView.Distribute` | FDRatingView/FDRatingView.swift:85-101 | The greedy hand-out gives exactly one fill value per element. |
| `RatingView.DistributeAt` | FDRatingView/FDRatingView.swift:91-101 | Closed form of the greedy loop: element `k` gets `value - k` clamped to [0, 1] (`ClampTo(value - k, 1)`). |
| `RatingView.DistributeBounded` | FDRatingView/FDRatingView.swift:91-101 | Every fill value lies in [0, 1]. It is 1 if more than one unit remains, the remainder if that remainder is in (0, 1], and 0 otherwise. |
| `RatingView.DistributeStaircase` | FDRatingView/FDRatingView.swift:93-101 | Every element before a non-empty one is full. Every element after a non-full one is empty. At most one element is strictly between 0 and 1. |
| `RatingView.DistributeSum` | FDRatingView/FDRatingView.swift:85-101 | The fill values add up to the value clamped to [0, n], so exactly to the value when `0 <= value <= n`. |
| `RatingView.DistributeSaturates` | FDRatingView/FDRatingView.swift:85-101 | A value of at least `n` fills every element. A value of at most 0 fills none. |
| `RatingView.DistributeExamples` | FDRatingView/FDRatingView.swift:93-101 | n=5, value 3.5 gives [1,1,1,0.5,0]. n=5, value 3 gives [1,1,1,0,0]. n=5, value 5 gives all ones. n=5, value 0 gives all zeros. n=3, value 7 gives [1,1,1]. |
| `RatingView.DistributeFromClosedForm` | FDRatingView/FDRatingView.swift:91-101 | The converse of `DistributeAt`: a plan of length `n` that gives element `k` the value `value - k` clamped to [0, 1] is `Distribute(value, n)`. |
| `RatingView.RemainingStep` | FDRatingView/FDRatingView.swift:93-101 | One pass of the loop body, in closed form: with `Remaining(value, k)` left, the element takes `value - k` clamped to [0, 1] and leaves `Remaining(value, k + 1)`. |
| `RatingView.DistributeStep` | FDRatingView/FDRatingView.swift:93-101 | One pass of the loop body appends the current share to the plan and passes what is left to the rest of the row. |
| `RatingView.ElementFrameAt` | FDRatingView/FDRatingView.swift:83-115 | When `xOffset` grows by `h + spacing` per element, element `i` sits at `x = i * (h + spacing)`, `y = 0`, with width and height `h`. |
| `RatingView.RowWidthFormula` | FDRatingView/FDRatingView.swift:76-77 | `(h + spacing) * n - spacing` equals `n * h + (n - 1) * spacing`, and the last element ends exactly at the right edge of the widget. |
| `RatingView.FramesDisjoint` | FDRatingView/FDRatingView.swift:89-115 | With non-negative spacing, each element ends before the next one starts. |
| `StarShape.StarPathInRect` | FDRatingView/Star.swift:29-63 | The loop, with its running angle and first-point flag, returns exactly `StarOutline(star, rect, trig)`. Requires `pointsOnStar >= 1`. |
| `StarShape.CGPathInRect` | FDRatingView/Star.swift:70-72 | Returns the same path as `starPathInRect`. |
| `StarShape.PathInRect` | FDRatingView/Star.swift:79-81 | Returns the same path as `starPathInRect`. |
| `StarShape.StarOutlineShape` | FDRatingView/Star.swift:41-60 | The path has `2 * pointsOnStar + 2` commands. It starts with a move to outer vertex 0. After that, odd positions are line-tos to inner vertices and even positions are line-tos to the next outer vertex. The last command is a close. The path has exactly one move, at the start, and exactly one close, at the end. |
| `StarShape.OutlineAt` | FDRatingView/Star.swift:43-60 | Gives command `i` of the outline for every index `i` of the path. |
| `StarShape.SpikesAt` | FDRatingView/Star.swift:45-57 | Iterations `k` onward produce two commands each: a line to inner vertex `k + j`, then a line to outer vertex `k + j + 1`. |
| `StarShape.PointFrom` | FDRatingView/Star.swift:83-85 | The point at `angle` on the circle of `radius` around `offset`: `(radius * cos(angle) + offset.x, radius * sin(angle) + offset.y)`, with `cos` and `sin` from `Trig`. |
| `StarShape.PointOnCircle` | FDRatingView/Star.swift:83-85 | Wherever `cos^2 + sin^2 = 1` at the angle, the point lies at distance `radius` from `offset`. |
| `StarShape.VertexPlacement` | FDRatingView/Star.swift:32-47 | Outer vertex `k` is `pointFrom(-pi/2 + k * 2pi/points, w/2, (w/2, h/2))`. Inner vertex `k` is `pointFrom(-pi/2 + (k + 1/2) * 2pi/points, 0.19 * w, (w/2, h/2))`. |
| `StarShape.InnerAngle` | FDRatingView/Star.swift:47 | The inner vertex angle `angle + angleIncrement / 2` after `k` turns equals `-pi/2 + (k + 1/2) * 2pi/points`. |
| `StarShape.AngleStep` | FDRatingView/Star.swift:57 | `angle += angleIncrement` moves the angle after `k` turns to the angle after `k + 1` turns. |
| `StarShape.ClosesAtFirstVertex` | FDRatingView/Star.swift:37-57 | After the loop the angle is `-pi/2 + 2pi`. If `cos` and `sin` repeat after `2pi` there, the last line-to ends at the first vertex. |
| `StarShape.DefaultStarOutline` | FDRatingView/Star.swift:20-60 | The default five-point star has 12 commands. Command 0 is a move to the outer vertex at angle `-pi/2`, radius `w/2`, around `(w/2, h/2)`. Commands 1 to 10 are line-tos, alternately to inner vertices 0-4 and to outer vertices 1-5. Command 11 is a close. |
| `ElementView.RatingElement.ChangeFillValue` | FDRatingView/FDRatingElementView.swift:62-66 | The mask becomes the rectangle `(0, 0, frame.width * value, frame.height)`. The frame is unchanged, the style is a constant, and `animated` has no effect. |
| `ElementView.RatingElement.constructor` | FDRatingView/FDCircleView.swift:57-82 | The subclass initializers keep the frame and set a mask with bounds `(0, 0, frame.width * fill, frame.height)`. The mask is an oval only for the circle style. FDSquareView.swift:74-79 and FDStarView.swift:74-79 do the same with a rectangle. |
| `ElementView.FillRectAnchoredFullHeight` | FDRatingView/FDRatingElementView.swift:37-64 | The mask starts at the origin and always has the frame's height, whatever the value. |
| `ElementView.FillRectEnds` | FDRatingView/FDRatingElementView.swift:63 | Value 0 gives mask width 0, and value 1 gives the frame's width. |
| `ElementView.FillRectStrictlyIncreasing` | FDRatingView/FDRatingElementView.swift:63 | For a frame of positive width, `v < w` holds exactly when the mask for `v` is narrower than the mask for `w`. |
| `ElementView.FillRectUnclamped` | FDRatingView/FDRatingElementView.swift:63 | There is no clamping: a value above 1 gives a mask wider than the frame, and a negative value gives a negative width. |

## Left out

- Floating point: `Float` and `CGFloat` are exact reals, so there is no rounding in `ratingValue -= 1` or in the angle sum.
- Trigonometry: `M_PI` in `angle` and `angleIncrement` (Star.swift:37-38), and `cos` and `sin` inside `pointFrom` (Star.swift:83-85), come in as the `Trig` parameter. The model cannot evaluate them, so it shows the star closing only where `cos` and `sin` are assumed to repeat after `2pi`.
- Rendering: colours and `tintColor` (including the self-recursive getter of FDRatingElementView), `lineWidth`, `backgroundColor`, `addSubview`, CAShapeLayer composition and `init?(coder:)`. They only drive the toolkit.
- Shape outlines: the fill and border layers of the square and circle views are not modelled. The star view's outline is modelled only as `StarShape`, not stored on the element.
- Oval masks: the circle's first mask is only tagged as an oval in `MaskPath`. The model does not compute how the oval clips.
- Convenience initializers (FDRatingView.swift:142-163): they pass their arguments, colour included, on to the initializer that is modelled, fixing only `spacing: 8.0` and then `lineWidth: 1`. The private `init(frame:)` only sets colours.
- Animation: `animated` is accepted and ignored, as in the source.
- Toolkit shim: Shared/CrossPlatformCompatibility.swift holds type aliases for colours, views and Bezier paths, and the class `FDView` (lines 37-47) that `FDRatingView` derives from. `FDView.isFlipped` returns true; the flag concerns only the row view, and UIKit never reads it. The star itself is drawn in the layer of `FDStarView`, which derives from `FDRatingElementView: UIView` (FDRatingElementView.swift:20), not from `FDView`. UIKit's y axis points down, so the vertex at `-pi/2` is at the top. Neither the class nor the coordinate orientation is modelled: points are plain coordinates.
- Aliasing in the row: `Valid` requires the elements to be distinct objects. The initializer creates them fresh, so this always holds.
