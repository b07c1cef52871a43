/** The rating row (FDRatingView): `numberOfElements` square elements placed
    left to right, and a rating value handed out to them greedily. */
module RatingView {
  import opened Geometry
  import opened ElementView

  // ---------------------------------------------------------------------
  // The greedy distribution, as a reference definition
  // ---------------------------------------------------------------------

  /** The share one element takes from what is left of the rating. */
  function Share(remaining: real): real
  {
    if remaining > 1.0 then 1.0 else if remaining > 0.0 then remaining else 0.0
  }

  /** What is left of the rating for the next element. */
  function Rest(remaining: real): real
  {
    if remaining > 1.0 then remaining - 1.0 else if remaining > 0.0 then 0.0 else remaining
  }

  /** The fill values of `n` elements when `value` is handed out left to right. */
  function Distribute(value: real, n: nat): (plan: seq<real>)
    ensures |plan| == n
    decreases n
  {
    if n == 0 then [] else [Share(value)] + Distribute(Rest(value), n - 1)
  }

  /** `x` limited to the interval [0, hi]. */
  function ClampTo(x: real, hi: real): real
  {
    if x < 0.0 then 0.0 else if x > hi then hi else x
  }

  function Sum(s: seq<real>): real
  {
    if s == [] then 0.0 else s[0] + Sum(s[1..])
  }

  /** Closed form of the distribution: element `k` shows what is left of the
      value after `k` whole elements, limited to [0, 1]. */
  lemma {:induction false} DistributeAt(value: real, n: nat, k: nat)
    requires k < n
    ensures Distribute(value, n)[k] == ClampTo(value - k as real, 1.0)
    decreases k
  {
    if k > 0 {
      DistributeAt(Rest(value), n - 1, k - 1);
      assert Distribute(value, n)[k] == Distribute(Rest(value), n - 1)[k - 1];
    }
  }

  /** What is left of `value` once `k` elements have taken their shares. */
  function Remaining(value: real, k: nat): (left: real)
    ensures left <= value
    ensures left < 0.0 ==> left == value
  {
    if value > k as real then value - k as real else if value > 0.0 then 0.0 else value
  }

  /** One pass of the greedy loop body: the next element takes what is left
      after `k` elements, limited to [0, 1], and leaves what is left after
      `k + 1`. */
  lemma RemainingStep(value: real, k: nat)
    ensures Share(Remaining(value, k)) == ClampTo(value - k as real, 1.0)
    ensures Rest(Remaining(value, k)) == Remaining(value, k + 1)
  {
  }

  /** The converse of `DistributeAt`: a plan that gives every element its
      clamped remainder is the distribution. */
  lemma DistributeFromClosedForm(value: real, n: nat, plan: seq<real>)
    requires |plan| == n
    requires forall k :: 0 <= k < n ==> plan[k] == ClampTo(value - k as real, 1.0)
    ensures plan == Distribute(value, n)
  {
    forall k | 0 <= k < n
      ensures plan[k] == Distribute(value, n)[k]
    {
      DistributeAt(value, n, k);
    }
  }

  /** Every fill value lies in [0, 1]; it is 1 while more than a whole
      element is left, the remainder when between 0 and 1 is left, and 0 when
      nothing is. */
  lemma DistributeBounded(value: real, n: nat)
    ensures forall k :: 0 <= k < n ==> 0.0 <= Distribute(value, n)[k] <= 1.0
    ensures forall k :: 0 <= k < n ==>
              (value - k as real > 1.0 ==> Distribute(value, n)[k] == 1.0) &&
              (0.0 < value - k as real <= 1.0 ==> Distribute(value, n)[k] == value - k as real) &&
              (value - k as real <= 0.0 ==> Distribute(value, n)[k] == 0.0)
  {
    forall k | 0 <= k < n
      ensures 0.0 <= Distribute(value, n)[k] <= 1.0
      ensures value - k as real > 1.0 ==> Distribute(value, n)[k] == 1.0
      ensures 0.0 < value - k as real <= 1.0 ==> Distribute(value, n)[k] == value - k as real
      ensures value - k as real <= 0.0 ==> Distribute(value, n)[k] == 0.0
    {
      DistributeAt(value, n, k);
    }
  }

  /** The fill values are a run of ones, then at most one value strictly
      between 0 and 1, then zeros. */
  lemma DistributeStaircase(value: real, n: nat)
    ensures forall i, j :: 0 <= i < j < n && Distribute(value, n)[j] > 0.0 ==> Distribute(value, n)[i] == 1.0
    ensures forall i, j :: 0 <= i < j < n && Distribute(value, n)[i] < 1.0 ==> Distribute(value, n)[j] == 0.0
    ensures forall i, j ::
              (0 <= i < n && 0 <= j < n && 0.0 < Distribute(value, n)[i] < 1.0 && 0.0 < Distribute(value, n)[j] < 1.0)
              ==> i == j
  {
    var plan := Distribute(value, n);
    forall i, j | 0 <= i < j < n
      ensures plan[j] > 0.0 ==> plan[i] == 1.0
      ensures plan[i] < 1.0 ==> plan[j] == 0.0
    {
      DistributeAt(value, n, i);
      DistributeAt(value, n, j);
    }
  }

  /** The fill values add up to the value limited to [0, n]: exactly the
      value when it lies in [0, n]. */
  lemma {:induction false} DistributeSum(value: real, n: nat)
    ensures Sum(Distribute(value, n)) == ClampTo(value, n as real)
    ensures 0.0 <= value <= n as real ==> Sum(Distribute(value, n)) == value
    decreases n
  {
    if n > 0 {
      DistributeSum(Rest(value), n - 1);
      assert Distribute(value, n)[1..] == Distribute(Rest(value), n - 1);
    }
  }

  /** A value of at least `n` fills every element, a value of at most zero
      fills none. */
  lemma DistributeSaturates(value: real, n: nat)
    ensures value >= n as real ==> forall k :: 0 <= k < n ==> Distribute(value, n)[k] == 1.0
    ensures value <= 0.0 ==> forall k :: 0 <= k < n ==> Distribute(value, n)[k] == 0.0
  {
    forall k | 0 <= k < n
      ensures value >= n as real ==> Distribute(value, n)[k] == 1.0
      ensures value <= 0.0 ==> Distribute(value, n)[k] == 0.0
    {
      DistributeAt(value, n, k);
    }
  }

  lemma DistributeExamples()
    ensures Distribute(3.5, 5) == [1.0, 1.0, 1.0, 0.5, 0.0]
    ensures Distribute(3.0, 5) == [1.0, 1.0, 1.0, 0.0, 0.0]
    ensures Distribute(5.0, 5) == [1.0, 1.0, 1.0, 1.0, 1.0]
    ensures Distribute(0.0, 5) == [0.0, 0.0, 0.0, 0.0, 0.0]
    ensures Distribute(7.0, 3) == [1.0, 1.0, 1.0]
  {
  }

  /** One step of the greedy loop: handing out `remaining` to the next
      element extends the plan so far by that element's share. */
  lemma DistributeStep(value: real, n: nat, plan: seq<real>, remaining: real)
    requires |plan| < n
    requires Distribute(value, n) == plan + Distribute(remaining, n - |plan|)
    ensures Distribute(value, n) == (plan + [Share(remaining)]) + Distribute(Rest(remaining), n - |plan| - 1)
  {
  }

  // ---------------------------------------------------------------------
  // Row layout
  // ---------------------------------------------------------------------

  /** The widget width the initializer sets for `n` elements of side `height`. */
  function RowWidth(height: real, spacing: real, n: nat): real
  {
    (height + spacing) * n as real - spacing
  }

  /** The x offset after `i` strides, accumulated one stride at a time. */
  function Offset(stride: real, i: nat): real
  {
    if i == 0 then 0.0 else Offset(stride, i - 1) + stride
  }

  /** Frame of element `i`: a square of side `height`, `i` strides of
      `height + spacing` from the left edge. */
  function ElementFrame(height: real, spacing: real, i: nat): Rect
  {
    Rect(Offset(height + spacing, i), 0.0, height, height)
  }

  /** Element `i` starts at `i * (height + spacing)`. */
  lemma {:induction false} ElementFrameAt(height: real, spacing: real, i: nat)
    ensures ElementFrame(height, spacing, i).x == i as real * (height + spacing)
    ensures ElementFrame(height, spacing, i).y == 0.0
    ensures ElementFrame(height, spacing, i).width == height == ElementFrame(height, spacing, i).height
  {
    if i > 0 {
      ElementFrameAt(height, spacing, i - 1);
      assert i as real * (height + spacing) == (i - 1) as real * (height + spacing) + (height + spacing);
    }
  }

  /** The width is `n` element sides plus `n - 1` gaps, and the last element
      ends exactly at the right edge. */
  lemma RowWidthFormula(height: real, spacing: real, n: nat)
    requires n >= 1
    ensures RowWidth(height, spacing, n) == n as real * height + (n - 1) as real * spacing
    ensures ElementFrame(height, spacing, n - 1).x + height == RowWidth(height, spacing, n)
  {
    ElementFrameAt(height, spacing, n - 1);
    var m := (n - 1) as real;
    assert n as real == m + 1.0;
    assert (height + spacing) * (m + 1.0) == m * (height + spacing) + height + spacing;
  }

  /** With non-negative spacing, consecutive elements do not overlap. */
  lemma FramesDisjoint(height: real, spacing: real, i: nat)
    requires spacing >= 0.0
    ensures ElementFrame(height, spacing, i).x + height <= ElementFrame(height, spacing, i + 1).x
  {
  }

  // ---------------------------------------------------------------------
  // The widget
  // ---------------------------------------------------------------------

  class RatingView {
    var frame: Rect
    /** The public `numberOfElements` property: the initializer never assigns
        it, so it keeps its default of 5 whatever count was asked for. */
    var numberOfElements: nat
    var elements: seq<RatingElement>
    /** The spacing the row was laid out with (a local of the initializer). */
    ghost var spacing: real
    /** The side of every element, fixed when the row was laid out. Later
        changes to `frame` do not move or resize the elements. */
    ghost var elementSize: real
    /** The fill value last handed to each element. */
    ghost var fills: seq<real>

    ghost predicate Valid()
      reads this, elements
    {
      |elements| >= 1 && |fills| == |elements| &&
      (forall i, j :: 0 <= i < j < |elements| ==> elements[i] != elements[j]) &&
      (forall i :: 0 <= i < |elements| ==> elements[i].frame == ElementFrame(elementSize, spacing, i)) &&
      (forall i :: 0 <= i < |elements| ==> elements[i].fillMask.bounds == FillRect(elements[i].frame, fills[i]))
    }

    /** `init(frame:style:numberOfElements:fillValue:color:lineWidth:spacing:)`:
        sets the frame's width to that of the row, builds one element per position and
        hands the value out greedily. */
    constructor (newFrame: Rect, style: ElementStyle, elementCount: nat, value: real, spacing: real)
      requires elementCount >= 1
      ensures Valid()
      ensures frame == Rect(newFrame.x, newFrame.y, RowWidth(newFrame.height, spacing, elementCount), newFrame.height)
      ensures numberOfElements == 5
      ensures |elements| == elementCount && this.spacing == spacing && elementSize == newFrame.height
      ensures forall i :: 0 <= i < |elements| ==>
                fresh(elements[i]) && elements[i].style == style &&
                elements[i].frame == ElementFrame(newFrame.height, spacing, i) &&
                (elements[i].fillMask.OvalPath? <==> style == Circle)
      ensures fills == Distribute(value, elementCount)
    {
      var newWidth := RowWidth(newFrame.height, spacing, elementCount);
      var viewFrame := Rect(newFrame.x, newFrame.y, newWidth, newFrame.height);
      var height := viewFrame.height;
      var xOffset := 0.0;
      var ratingValue := value;
      var elems: seq<RatingElement> := [];
      ghost var plan: seq<real> := [];
      var i := 0;
      while i < elementCount
        invariant 0 <= i <= elementCount
        invariant |elems| == i && |plan| == i
        invariant xOffset == Offset(height + spacing, i)
        invariant ratingValue == Remaining(value, i)
        invariant forall k :: 0 <= k < i ==> plan[k] == ClampTo(value - k as real, 1.0)
        invariant forall a, b :: 0 <= a < b < i ==> elems[a] != elems[b]
        invariant forall k :: 0 <= k < i ==>
                    fresh(elems[k]) && elems[k].style == style &&
                    elems[k].frame == ElementFrame(height, spacing, k) &&
                    elems[k].fillMask.bounds == FillRect(elems[k].frame, plan[k]) &&
                    (elems[k].fillMask.OvalPath? <==> style == Circle)
      {
        var elementFrame := Rect(xOffset, 0.0, height, height);
        assert elementFrame == ElementFrame(height, spacing, i);
        RemainingStep(value, i);
        ghost var share, rest := Share(ratingValue), Rest(ratingValue);
        var tmpRating := 0.0;
        if ratingValue > 1.0 {
          tmpRating := 1.0;
          ratingValue := ratingValue - 1.0;
        } else if ratingValue > 0.0 {
          tmpRating := ratingValue;
          ratingValue := 0.0;
        } else {
          tmpRating := 0.0;
        }
        assert tmpRating == share && ratingValue == rest;
        var element := new RatingElement(elementFrame, tmpRating, style);
        elems := elems + [element];
        plan := plan + [tmpRating];
        xOffset := xOffset + (height + spacing);
        i := i + 1;
      }
      DistributeFromClosedForm(value, elementCount, plan);
      frame := viewFrame;
      numberOfElements := 5;
      elements := elems;
      this.spacing := spacing;
      elementSize := height;
      fills := plan;
    }

    /** `set(value:)`: hands the new value out over the same elements with
        the same greedy rule and pushes each share into its element. */
    method Set(value: real)
      requires Valid()
      modifies this`fills, elements`fillMask
      ensures Valid()
      ensures fills == Distribute(value, |elements|)
      ensures elements == old(elements) && frame == old(frame)
      ensures numberOfElements == old(numberOfElements) && spacing == old(spacing)
      ensures elementSize == old(elementSize)
      ensures forall i :: 0 <= i < |elements| ==>
                elements[i].frame == old(elements[i].frame) &&
                elements[i].fillMask == RectPath(FillRect(elements[i].frame, fills[i]))
    {
      var tmpRating := 0.0;
      var ratingValue := value;
      ghost var plan: seq<real> := [];
      var i := 0;
      while i < |elements|
        invariant 0 <= i <= |elements|
        invariant |plan| == i && ratingValue == Remaining(value, i)
        invariant forall k :: 0 <= k < i ==> plan[k] == ClampTo(value - k as real, 1.0)
        invariant forall a, b :: 0 <= a < b < |elements| ==> elements[a] != elements[b]
        invariant forall k :: 0 <= k < i ==>
                    elements[k].fillMask == RectPath(FillRect(elements[k].frame, plan[k]))
      {
        RemainingStep(value, i);
        ghost var share, rest := Share(ratingValue), Rest(ratingValue);
        if ratingValue > 1.0 {
          tmpRating := 1.0;
          ratingValue := ratingValue - 1.0;
        } else if ratingValue > 0.0 {
          tmpRating := ratingValue;
          ratingValue := 0.0;
        } else {
          tmpRating := 0.0;
        }
        assert tmpRating == share && ratingValue == rest;
        assert forall k :: 0 <= k < i ==> elements[k] != elements[i];
        elements[i].ChangeFillValue(tmpRating, false);
        plan := plan + [tmpRating];
        i := i + 1;
      }
      DistributeFromClosedForm(value, |elements|, plan);
      fills := plan;
    }
  }

  /** Setting the value a row was built with again leaves every fill value
      as it was, and so every rectangular mask, even after the client has
      moved and resized the widget. */
  method RedisplaySameValue(style: ElementStyle, elementCount: nat, value: real)
    requires elementCount >= 1
  {
    var view := new RatingView(Rect(0.0, 0.0, 0.0, 40.0), style, elementCount, value, 8.0);
    ghost var before := view.fills;
    view.frame := Rect(10.0, 20.0, 300.0, 60.0);
    label Built:
    view.Set(value);
    assert view.fills == before;
    assert style != Circle ==>
      forall k :: 0 <= k < |view.elements| ==> view.elements[k].fillMask == old@Built(view.elements[k].fillMask);
  }
}
