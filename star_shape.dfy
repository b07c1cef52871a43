/** The outline of a star inscribed in a rectangle (the `Star` struct), as a
    sequence of path commands. The toolkit's `cos`, `sin` and `M_PI` are not
    computable here, so they are passed in as a `Trig` value and every point
    is stated in terms of them. */
module StarShape {
  import opened Geometry

  /** The trigonometry the outline is built from. */
  datatype Trig = Trig(pi: real, cos: real -> real, sin: real -> real)

  /** One command of a Bezier path. */
  datatype PathCommand = MoveTo(to: Point) | LineTo(to: Point) | Close

  /** The `Star` struct; its only setting is the number of outer points. */
  datatype Star = Star(pointsOnStar: int)

  /** `Star()`: the initializer keeps the default of five points. */
  function DefaultStar(): Star
  {
    Star(5)
  }

  /** `pointFrom`: the point at `angle` on the circle of `radius` around `offset`. */
  function PointFrom(trig: Trig, angle: real, radius: real, offset: Point): Point
  {
    Point(radius * trig.cos(angle) + offset.x, radius * trig.sin(angle) + offset.y)
  }

  /** Where `cos` and `sin` satisfy the Pythagorean identity at `angle`,
      `pointFrom` lies on the circle of `radius` around `offset`. */
  lemma PointOnCircle(trig: Trig, angle: real, radius: real, offset: Point)
    requires trig.cos(angle) * trig.cos(angle) + trig.sin(angle) * trig.sin(angle) == 1.0
    ensures var p := PointFrom(trig, angle, radius, offset);
            (p.x - offset.x) * (p.x - offset.x) + (p.y - offset.y) * (p.y - offset.y) == radius * radius
  {
  }

  /** Radius of the inner (concave) vertices. */
  function Extrusion(rect: Rect): real
  {
    rect.width * 0.19
  }

  function Center(rect: Rect): Point
  {
    Point(rect.width / 2.0, rect.height / 2.0)
  }

  /** Radius of the outer vertices. */
  function Radius(rect: Rect): real
  {
    rect.width / 2.0
  }

  /** The first outer vertex points straight up. */
  function StartAngle(trig: Trig): real
  {
    -(trig.pi / 2.0)
  }

  function AngleIncrement(trig: Trig, points: int): real
    requires points >= 1
  {
    trig.pi * 2.0 / points as real
  }

  /** The running `angle` after `k` iterations. */
  function Angle(trig: Trig, points: int, k: nat): real
    requires points >= 1
  {
    StartAngle(trig) + k as real * AngleIncrement(trig, points)
  }

  /** The outer vertex reached after `k` increments. */
  function OuterVertex(rect: Rect, trig: Trig, points: int, k: nat): Point
    requires points >= 1
  {
    PointFrom(trig, Angle(trig, points, k), Radius(rect), Center(rect))
  }

  /** The inner vertex between outer vertices `k` and `k + 1`. */
  function InnerVertex(rect: Rect, trig: Trig, points: int, k: nat): Point
    requires points >= 1
  {
    PointFrom(trig, Angle(trig, points, k) + AngleIncrement(trig, points) / 2.0, Extrusion(rect), Center(rect))
  }

  /** The two line-tos of iterations `k` to `k + count - 1`: each goes to an
      inner vertex and on to the next outer vertex. */
  function Spikes(rect: Rect, trig: Trig, points: int, k: nat, count: nat): seq<PathCommand>
    requires points >= 1
    decreases count
  {
    if count == 0 then []
    else [LineTo(InnerVertex(rect, trig, points, k)), LineTo(OuterVertex(rect, trig, points, k + 1))]
         + Spikes(rect, trig, points, k + 1, count - 1)
  }

  /** Reference definition of the star's path: a move to the top vertex, the
      spikes of all `pointsOnStar` iterations, and a close. */
  function StarOutline(star: Star, rect: Rect, trig: Trig): seq<PathCommand>
    requires star.pointsOnStar >= 1
  {
    [MoveTo(OuterVertex(rect, trig, star.pointsOnStar, 0))]
    + Spikes(rect, trig, star.pointsOnStar, 0, star.pointsOnStar)
    + [Close]
  }

  lemma {:induction false} SpikesAt(rect: Rect, trig: Trig, points: int, k: nat, count: nat, i: nat)
    requires points >= 1 && i < 2 * count
    ensures |Spikes(rect, trig, points, k, count)| == 2 * count
    ensures Spikes(rect, trig, points, k, count)[i]
            == if i % 2 == 0 then LineTo(InnerVertex(rect, trig, points, k + i / 2))
               else LineTo(OuterVertex(rect, trig, points, k + i / 2 + 1))
    decreases count
  {
    SpikesLength(rect, trig, points, k, count);
    if i >= 2 {
      SpikesAt(rect, trig, points, k + 1, count - 1, i - 2);
      assert k + 1 + (i - 2) / 2 == k + i / 2;
    }
  }

  lemma {:induction false} SpikesLength(rect: Rect, trig: Trig, points: int, k: nat, count: nat)
    requires points >= 1
    ensures |Spikes(rect, trig, points, k, count)| == 2 * count
    decreases count
  {
    if count > 0 {
      SpikesLength(rect, trig, points, k + 1, count - 1);
    }
  }

  /** Running one more iteration appends that iteration's two line-tos. */
  lemma {:induction false} SpikesSnoc(rect: Rect, trig: Trig, points: int, k: nat, count: nat)
    requires points >= 1
    ensures Spikes(rect, trig, points, k, count + 1)
            == Spikes(rect, trig, points, k, count)
               + [LineTo(InnerVertex(rect, trig, points, k + count)),
                  LineTo(OuterVertex(rect, trig, points, k + count + 1))]
    decreases count
  {
    if count > 0 {
      SpikesSnoc(rect, trig, points, k + 1, count - 1);
    }
  }

  /** Command `i` of the outline, read off its definition. */
  lemma OutlineAt(star: Star, rect: Rect, trig: Trig, i: nat)
    requires star.pointsOnStar >= 1 && i < 2 * star.pointsOnStar + 2
    ensures |StarOutline(star, rect, trig)| == 2 * star.pointsOnStar + 2
    ensures StarOutline(star, rect, trig)[i]
            == if i == 0 then MoveTo(OuterVertex(rect, trig, star.pointsOnStar, 0))
               else if i == 2 * star.pointsOnStar + 1 then Close
               else if i % 2 == 1 then LineTo(InnerVertex(rect, trig, star.pointsOnStar, (i - 1) / 2))
               else LineTo(OuterVertex(rect, trig, star.pointsOnStar, i / 2))
  {
    var p := star.pointsOnStar;
    var spikes := Spikes(rect, trig, p, 0, p);
    SpikesLength(rect, trig, p, 0, p);
    var first := [MoveTo(OuterVertex(rect, trig, p, 0))];
    assert StarOutline(star, rect, trig) == first + spikes + [Close];
    if 1 <= i <= 2 * p {
      assert StarOutline(star, rect, trig)[i] == spikes[i - 1];
      SpikesAt(rect, trig, p, 0, p, i - 1);
      if i % 2 == 0 {
        assert (i - 1) % 2 == 1 && (i - 1) / 2 + 1 == i / 2;
      } else {
        assert (i - 1) % 2 == 0;
      }
    }
  }

  /** One more iteration turns the angle by one increment. */
  lemma AngleStep(trig: Trig, points: int, k: nat)
    requires points >= 1
    ensures Angle(trig, points, k + 1) == Angle(trig, points, k) + AngleIncrement(trig, points)
  {
    var inc := AngleIncrement(trig, points);
    assert (k + 1) as real * inc == k as real * inc + inc;
  }

  /** The path after `i + 1` iterations extends the path after `i` by the
      two line-tos of iteration `i`. */
  lemma PrefixStep(rect: Rect, trig: Trig, points: int, i: nat)
    requires points >= 1
    ensures [MoveTo(OuterVertex(rect, trig, points, 0))] + Spikes(rect, trig, points, 0, i + 1)
            == [MoveTo(OuterVertex(rect, trig, points, 0))] + Spikes(rect, trig, points, 0, i)
               + [LineTo(InnerVertex(rect, trig, points, i))]
               + [LineTo(OuterVertex(rect, trig, points, i + 1))]
  {
    SpikesSnoc(rect, trig, points, 0, i);
  }

  /** The shape of the path: `2 * pointsOnStar + 2` commands, a single move
      to the top vertex first, then alternately a line to an inner vertex and
      a line to the next outer vertex, and a single close last. */
  lemma StarOutlineShape(star: Star, rect: Rect, trig: Trig)
    requires star.pointsOnStar >= 1
    ensures |StarOutline(star, rect, trig)| == 2 * star.pointsOnStar + 2
    ensures StarOutline(star, rect, trig)[0] == MoveTo(OuterVertex(rect, trig, star.pointsOnStar, 0))
    ensures forall i :: 1 <= i <= 2 * star.pointsOnStar ==>
              StarOutline(star, rect, trig)[i]
              == if i % 2 == 1 then LineTo(InnerVertex(rect, trig, star.pointsOnStar, (i - 1) / 2))
                 else LineTo(OuterVertex(rect, trig, star.pointsOnStar, i / 2))
    ensures StarOutline(star, rect, trig)[2 * star.pointsOnStar + 1] == Close
    ensures forall i :: 0 <= i < |StarOutline(star, rect, trig)| ==>
              (StarOutline(star, rect, trig)[i].MoveTo? <==> i == 0) &&
              (StarOutline(star, rect, trig)[i].Close? <==> i == 2 * star.pointsOnStar + 1)
  {
    var p := star.pointsOnStar;
    var path := StarOutline(star, rect, trig);
    OutlineAt(star, rect, trig, 0);
    OutlineAt(star, rect, trig, 2 * p + 1);
    forall i | 0 <= i < 2 * p + 2
      ensures path[i] == if i == 0 then MoveTo(OuterVertex(rect, trig, p, 0))
                         else if i == 2 * p + 1 then Close
                         else if i % 2 == 1 then LineTo(InnerVertex(rect, trig, p, (i - 1) / 2))
                         else LineTo(OuterVertex(rect, trig, p, i / 2))
    {
      OutlineAt(star, rect, trig, i);
    }
  }

  /** The vertices sit where the source's geometry puts them: center
      `(w/2, h/2)`, outer radius `w/2`, inner radius `0.19 * w`, the start
      angle `-pi/2`, outer vertex `k` at `k` increments of `2 * pi / points`
      and inner vertex `k` half an increment further. */
  lemma VertexPlacement(rect: Rect, trig: Trig, points: int, k: nat)
    requires points >= 1
    ensures OuterVertex(rect, trig, points, k)
            == PointFrom(trig, -(trig.pi / 2.0) + k as real * (trig.pi * 2.0 / points as real),
                         rect.width / 2.0, Point(rect.width / 2.0, rect.height / 2.0))
    ensures InnerVertex(rect, trig, points, k)
            == PointFrom(trig, -(trig.pi / 2.0) + (k as real + 0.5) * (trig.pi * 2.0 / points as real),
                         rect.width * 0.19, Point(rect.width / 2.0, rect.height / 2.0))
  {
    InnerAngle(trig, points, k);
  }

  /** The inner vertex lies half an increment past outer vertex `k`. */
  lemma InnerAngle(trig: Trig, points: int, k: nat)
    requires points >= 1
    ensures Angle(trig, points, k) + AngleIncrement(trig, points) / 2.0
            == -(trig.pi / 2.0) + (k as real + 0.5) * (trig.pi * 2.0 / points as real)
  {
    var inc := AngleIncrement(trig, points);
    assert k as real * inc + inc / 2.0 == (k as real + 0.5) * inc;
  }

  /** After all iterations the angle has turned a full circle, so the last
      line ends at the first vertex whenever `cos` and `sin` repeat after
      `2 * pi` there. */
  lemma ClosesAtFirstVertex(star: Star, rect: Rect, trig: Trig)
    requires star.pointsOnStar >= 1
    requires trig.cos(StartAngle(trig) + 2.0 * trig.pi) == trig.cos(StartAngle(trig))
    requires trig.sin(StartAngle(trig) + 2.0 * trig.pi) == trig.sin(StartAngle(trig))
    ensures Angle(trig, star.pointsOnStar, star.pointsOnStar) == StartAngle(trig) + 2.0 * trig.pi
    ensures |StarOutline(star, rect, trig)| == 2 * star.pointsOnStar + 2
    ensures StarOutline(star, rect, trig)[2 * star.pointsOnStar]
            == LineTo(OuterVertex(rect, trig, star.pointsOnStar, 0))
  {
    var p := star.pointsOnStar;
    assert p as real * (trig.pi * 2.0 / p as real) == 2.0 * trig.pi;
    assert Angle(trig, p, p) == StartAngle(trig) + 2.0 * trig.pi;
    assert OuterVertex(rect, trig, p, p) == OuterVertex(rect, trig, p, 0);
    OutlineAt(star, rect, trig, 2 * p);
  }

  /** The default star starts with a move to the vertex at `-pi/2` and then
      visits ten vertices: five inner and five outer, alternately. */
  lemma DefaultStarOutline(rect: Rect, trig: Trig)
    ensures |StarOutline(DefaultStar(), rect, trig)| == 12
    ensures StarOutline(DefaultStar(), rect, trig)[0] == MoveTo(OuterVertex(rect, trig, 5, 0))
    ensures OuterVertex(rect, trig, 5, 0)
            == PointFrom(trig, -(trig.pi / 2.0), rect.width / 2.0, Point(rect.width / 2.0, rect.height / 2.0))
    ensures forall i :: 1 <= i <= 10 ==>
              StarOutline(DefaultStar(), rect, trig)[i]
              == if i % 2 == 1 then LineTo(InnerVertex(rect, trig, 5, (i - 1) / 2))
                 else LineTo(OuterVertex(rect, trig, 5, i / 2))
    ensures StarOutline(DefaultStar(), rect, trig)[11] == Close
  {
    StarOutlineShape(DefaultStar(), rect, trig);
    VertexPlacement(rect, trig, 5, 0);
  }

  /** `starPathInRect`: the loop of the source, with its running `angle` and
      `firstPoint` flag, builds exactly the reference outline. */
  method StarPathInRect(star: Star, rect: Rect, trig: Trig) returns (path: seq<PathCommand>)
    requires star.pointsOnStar >= 1
    ensures path == StarOutline(star, rect, trig)
  {
    path := [];
    var starExtrusion := rect.width * 0.19;
    var center := Point(rect.width / 2.0, rect.height / 2.0);
    var angle := -(trig.pi / 2.0);
    var angleIncrement := trig.pi * 2.0 / star.pointsOnStar as real;
    var radius := rect.width / 2.0;
    assert angleIncrement == AngleIncrement(trig, star.pointsOnStar);
    assert radius == Radius(rect) && center == Center(rect) && starExtrusion == Extrusion(rect);
    var firstPoint := true;
    ghost var start := [MoveTo(OuterVertex(rect, trig, star.pointsOnStar, 0))];
    var i := 0;
    while i < star.pointsOnStar
      invariant 0 <= i <= star.pointsOnStar
      invariant angle == Angle(trig, star.pointsOnStar, i)
      invariant firstPoint <==> i == 0
      invariant i == 0 ==> path == []
      invariant i > 0 ==> path == start + Spikes(rect, trig, star.pointsOnStar, 0, i)
    {
      var point := PointFrom(trig, angle, radius, center);
      var nextPoint := PointFrom(trig, angle + angleIncrement, radius, center);
      var midPoint := PointFrom(trig, angle + angleIncrement / 2.0, starExtrusion, center);
      if firstPoint {
        firstPoint := false;
        path := path + [MoveTo(point)];
        assert path == start + Spikes(rect, trig, star.pointsOnStar, 0, 0);
      }
      assert midPoint == InnerVertex(rect, trig, star.pointsOnStar, i);
      AngleStep(trig, star.pointsOnStar, i);
      assert nextPoint == OuterVertex(rect, trig, star.pointsOnStar, i + 1);
      PrefixStep(rect, trig, star.pointsOnStar, i);
      path := path + [LineTo(midPoint)];
      path := path + [LineTo(nextPoint)];
      angle := angle + angleIncrement;
      i := i + 1;
    }
    path := path + [Close];
  }

  /** `CGPathInRect`: the same path, handed over as a Core Graphics path. */
  method CGPathInRect(star: Star, rect: Rect, trig: Trig) returns (path: seq<PathCommand>)
    requires star.pointsOnStar >= 1
    ensures path == StarOutline(star, rect, trig)
  {
    path := StarPathInRect(star, rect, trig);
  }

  /** `pathInRect`: the same path, handed over as a Bezier path. */
  method PathInRect(star: Star, rect: Rect, trig: Trig) returns (path: seq<PathCommand>)
    requires star.pointsOnStar >= 1
    ensures path == StarOutline(star, rect, trig)
  {
    path := StarPathInRect(star, rect, trig);
  }
}
