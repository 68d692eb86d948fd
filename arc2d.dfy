/**
 * Arc2D: a circular arc given by a frame (centre and basis), a radius and a
 * start and end angle measured in that frame, with its four constructors,
 * its points, its intersection with a line, and the arcs derived from it.
 */
module Arcs2D {
  import opened RealMath
  import opened Results
  import opened Primitives2D
  import opened Transforms2D
  import opened Lines2D
  import opened Circles2D
  import Triangles2D

  datatype Arc2D = Arc2D(Transform: Transform2D, Radius: real, StartAngle: real, EndAngle: real)
  {
    /** The origin of the frame. */
    function Center(): Point2D { Transform.Origin() }

    /** The angle the arc sweeps. */
    function Span(): real { EndAngle - StartAngle }

    /** radius times the swept angle. */
    function Length(): real { Radius * Span() }

    /** The angle a ratio of the sweep past the start. */
    function AngleAt(ratio: real): real { StartAngle + ratio * Span() }

    /** The point at angle AngleAt(ratio), radius from the centre in the frame. */
    function GetPoint(ratio: real, math: MathLib): Point2D
    {
      Transform.OfPoint(Polar(Radius, AngleAt(ratio), math))
    }

    function StartPoint(math: MathLib): Point2D { GetPoint(0.0, math) }

    function EndPoint(math: MathLib): Point2D { GetPoint(1.0, math) }

    /**
     * The frame every constructor builds: affine, with a unit X basis and the
     * Y basis a quarter turn from it one way or the other.
     */
    predicate HasOrthonormalFrame()
    {
      && Transform.IsAffine()
      && Transform.BasisX().SquareLength() == 1.0
      && (Transform.BasisY() == Transform.BasisX().Vertical() || Transform.BasisY() == Transform.BasisX().Vertical().Negate())
    }

    /**
     * Moves the start back by `start` spans and the end on by `end` spans;
     * ArgumentException when the new arc would sweep more than a full turn.
     */
    function Extend(start: real, end: real, math: MathLib): Result<Arc2D>
    {
      var startAngle := StartAngle - start * Span();
      var endAngle := EndAngle + end * Span();
      if endAngle - startAngle > 2.0 * math.PI then Failure(Argument)
      else Success(FromAngles(Transform.Origin(), Radius, startAngle, endAngle, Transform.BasisX(), Transform.BasisY()))
    }

    /** The same radius and angles in the frame `transform * this frame`. */
    function CreateTransformed(transform: Transform2D): Arc2D
    {
      var trans := transform.Multiply(Transform);
      FromAngles(trans.Origin(), Radius, StartAngle, EndAngle, trans.BasisX(), trans.BasisY())
    }

    /** The same frame and angles with the radius grown by `offsetDist`. */
    function CreateOffset(offsetDist: real): Arc2D
    {
      FromAngles(Transform.Origin(), Radius + offsetDist, StartAngle, EndAngle, Transform.BasisX(), Transform.BasisY())
    }

    /** The arc through the end point, the middle point and the start point, in that order. */
    function CreateReversed(math: MathLib): Arc2D
      requires ThroughPointsDefined(GetPoint(1.0, math), GetPoint(0.0, math), GetPoint(0.5, math), math)
    {
      ThroughPoints(GetPoint(1.0, math), GetPoint(0.0, math), GetPoint(0.5, math), math)
    }

    /** The circle the arc lies on. */
    function Circle(): Circle2D { Circle2D(Center(), Radius) }

    /**
     * The divisions the per-point test performs are by non-zero numbers: in
     * a sweep of more than half a turn the angle left to the full turn is at
     * least the tolerance (so a matching angle sum is positive), and a
     * smaller sweep is not zero.
     */
    predicate SpanDefined(math: MathLib)
    {
      && (Span() > math.PI ==> 2.0 * math.PI - Span() >= Tolerance)
      && (Span() <= math.PI ==> Span() != 0.0)
    }

    /** The radii to the end points are not zero. */
    predicate EndsDefined(math: MathLib)
    {
      && Vector2D.Between(Center(), StartPoint(math)).Length(math) != 0.0
      && Vector2D.Between(Center(), EndPoint(math)).Length(math) != 0.0
    }

    /**
     * `point` is accepted as on the arc: the angles from the start radius
     * oA to the radius through `point` and from there to the end radius oB
     * add up, within the tolerance, to the sweep, or to what is left of the
     * full turn when the sweep exceeds half a turn.
     */
    predicate OnArcAngles(point: Point2D, oA: Vector2D, oB: Vector2D, math: MathLib)
    {
      var op := Vector2D.Between(Center(), point);
      && oA.Length(math) != 0.0 && oB.Length(math) != 0.0 && op.Length(math) != 0.0
      && SpanDefined(math)
      && var angleA := oA.AngleTo(op, math);
      var angleB := op.AngleTo(oB, math);
      if Span() > math.PI then Abs((angleA + angleB) - (2.0 * math.PI - Span())) < Tolerance
      else Abs((angleA + angleB) - Span()) < Tolerance
    }

    /**
     * The verdict on one hit of the circle: kept, with its U parameter set,
     * when its angles match. The source tests the orientation of oA and oB
     * in both cases, but the two arms it chooses between are identical.
     */
    function Judge(item: IntersectResult<Point2D>, oA: Vector2D, oB: Vector2D, math: MathLib): (r: Option<IntersectResult<Point2D>>)
      ensures r.Some? <==> OnArcAngles(item.Point, oA, oB, math)
      ensures r.Some? ==> r.value.Point == item.Point && r.value.VParameter == item.VParameter
      ensures r.Some? && Span() <= math.PI ==>
        r.value.UParameter * Span() == oA.AngleTo(Vector2D.Between(Center(), item.Point), math)
    {
      if OnArcAngles(item.Point, oA, oB, math) then
        var op := Vector2D.Between(Center(), item.Point);
        var angleA := oA.AngleTo(op, math);
        var angleB := op.AngleTo(oB, math);
        if Span() > math.PI then Some(item.(UParameter := (2.0 * math.PI - Span()) / (angleA + angleB)))
        else DivMul(angleA, Span()); Some(item.(UParameter := angleA / Span()))
      else None
    }

    /** The hits kept by Judge, in their order. */
    function Kept(items: seq<IntersectResult<Point2D>>, oA: Vector2D, oB: Vector2D, math: MathLib): seq<IntersectResult<Point2D>>
    {
      if |items| == 0 then []
      else
        var rest := Kept(items[..|items| - 1], oA, oB, math);
        match Judge(items[|items| - 1], oA, oB, math)
        case Some(h) => rest + [h]
        case None => rest
    }

    /** What Intersect(line) divides by is non-zero. */
    predicate IntersectDefined(line: Line2D, math: MathLib)
    {
      && Circle().LineIntersectDefined(line, math)
      && EndsDefined(math)
      && SpanDefined(math)
      && (Circle().IntersectLine(line, math).Some? ==>
            forall h <- Circle().IntersectLine(line, math).value :: Vector2D.Between(Center(), h.Point).Length(math) != 0.0)
    }

    /**
     * None when the line misses the arc's circle; otherwise the circle's
     * hits, in order, that pass the angle test, each with its U parameter.
     */
    method Intersect(line: Line2D, math: MathLib) returns (r: Option<seq<IntersectResult<Point2D>>>)
      requires IntersectDefined(line, math)
      ensures r.None? <==> Circle().IntersectLine(line, math).None?
      ensures r.Some? ==> r.value == Kept(Circle().IntersectLine(line, math).value,
                                          Vector2D.Between(Center(), StartPoint(math)),
                                          Vector2D.Between(Center(), EndPoint(math)), math)
    {
      var circle := Circle2D(Center(), Radius);
      var temp := circle.IntersectLine(line, math);
      if temp.None? {
        return None;
      }
      var result: seq<IntersectResult<Point2D>> := [];
      var oA := Vector2D.Between(Center(), StartPoint(math));
      var oB := Vector2D.Between(Center(), EndPoint(math));
      for i := 0 to |temp.value|
        invariant result == Kept(temp.value[..i], oA, oB, math)
      {
        var item := temp.value[i];
        var op := Vector2D.Between(Center(), item.Point);
        assert op.Length(math) != 0.0 by { assert item in temp.value; }
        var angleA := oA.AngleTo(op, math);
        var angleB := op.AngleTo(oB, math);
        if Span() > math.PI {
          var angle := 2.0 * math.PI - Span();
          if Abs((angleA + angleB) - angle) < Tolerance {
            result := result + [item.(UParameter := angle / (angleA + angleB))];
          }
        } else {
          if Abs((angleA + angleB) - Span()) < Tolerance {
            result := result + [item.(UParameter := angleA / Span())];
          }
        }
        assert temp.value[..i + 1][..i] == temp.value[..i];
      }
      return Some(result);
    }
  }

  /** The point (r cos a, r sin a). */
  function Polar(radius: real, angle: real, math: MathLib): Point2D
  {
    Point2D(radius * math.Cos(angle), radius * math.Sin(angle))
  }

  /** The constructor from a centre, a radius, two angles and a basis. */
  function FromAngles(center: Point2D, radius: real, startAngle: real, endAngle: real, basisX: Vector2D, basisY: Vector2D): Arc2D
  {
    Arc2D(FromFrame(center, basisX, basisY), radius, startAngle, endAngle)
  }

  /** The circumcentre of start, end and middle exists and is distinct from the start and the end. */
  predicate ThroughPointsDefined(startPoint: Point2D, endPoint: Point2D, midPoint: Point2D, math: MathLib)
  {
    var triangle := Triangles2D.Triangle2D(startPoint, endPoint, midPoint);
    && triangle.CircumDeterminant() != 0.0
    && Vector2D.Between(triangle.CircumCenter(), startPoint).Length(math) != 0.0
    && Vector2D.Between(triangle.CircumCenter(), endPoint).Length(math) != 0.0
  }

  /**
   * The arc through three points: centred on their circumcentre, starting
   * at angle 0 on the start point. It turns counter-clockwise (Y basis a
   * quarter turn counter-clockwise from X) when the turn at the middle point
   * from the end point to the start point is counter-clockwise, and sweeps
   * the angle between the radii or its complement to a full turn.
   */
  function ThroughPoints(startPoint: Point2D, endPoint: Point2D, midPoint: Point2D, math: MathLib): Arc2D
    requires ThroughPointsDefined(startPoint, endPoint, midPoint, math)
  {
    var center := Triangles2D.Triangle2D(startPoint, endPoint, midPoint).CircumCenter();
    var radius := center.DistanceTo(startPoint, math);
    var basisX := Vector2D.Between(center, startPoint).Normalize(math);
    var basisY := basisX.Vertical();
    var angle := Vector2D.Between(center, startPoint).AngleTo(Vector2D.Between(center, endPoint), math);
    var turn := Vector2D.Between(midPoint, endPoint).IsCounterClockwise(Vector2D.Between(midPoint, startPoint));
    if Vector2D.Between(center, startPoint).IsCounterClockwise(Vector2D.Between(center, endPoint)) then
      if turn then FromAngles(center, radius, 0.0, angle, basisX, basisY)
      else FromAngles(center, radius, 0.0, 2.0 * math.PI - angle, basisX, basisY.Negate())
    else
      if turn then FromAngles(center, radius, 0.0, 2.0 * math.PI - angle, basisX, basisY)
      else FromAngles(center, radius, 0.0, angle, basisX, basisY.Negate())
  }

  /** The radii normalised and compared by the centre form are not zero when it gets that far. */
  predicate FromCenterDefined(center: Point2D, startPoint: Point2D, endPoint: Point2D, math: MathLib)
  {
    Abs(center.DistanceTo(startPoint, math) - center.DistanceTo(endPoint, math)) <= Tolerance ==>
      && Vector2D.Between(center, startPoint).Length(math) != 0.0
      && Vector2D.Between(center, endPoint).Length(math) != 0.0
  }

  /**
   * The arc about `center` from the start point towards the end point:
   * ArgumentException when the two radii differ by more than the tolerance,
   * otherwise their mean as radius, angle 0 on the start point, the Y basis
   * negated for a clockwise arc, and the angle between the radii or its
   * complement as sweep.
   */
  function FromCenter(center: Point2D, startPoint: Point2D, endPoint: Point2D, ccw: bool, math: MathLib): Result<Arc2D>
    requires FromCenterDefined(center, startPoint, endPoint, math)
  {
    var radis1 := center.DistanceTo(startPoint, math);
    var radis2 := center.DistanceTo(endPoint, math);
    if Abs(radis1 - radis2) > Tolerance then Failure(Argument)
    else
      var radius := 0.5 * (radis1 + radis2);
      var dir1 := Vector2D.Between(center, startPoint);
      var dir2 := Vector2D.Between(center, endPoint);
      var angle := dir1.AngleTo(dir2, math);
      var basisX := dir1.Normalize(math);
      var basisY := basisX.Vertical();
      if dir1.IsCounterClockwise(dir2) then
        if ccw then Success(FromAngles(center, radius, 0.0, angle, basisX, basisY))
        else Success(FromAngles(center, radius, 0.0, 2.0 * math.PI - angle, basisX, basisY.Negate()))
      else
        if ccw then Success(FromAngles(center, radius, 0.0, 2.0 * math.PI - angle, basisX, basisY))
        else Success(FromAngles(center, radius, 0.0, angle, basisX, basisY.Negate()))
  }

  /** The arc about `center` from the start point sweeping `angle`, counter-clockwise when `ccw`. */
  function FromCenterAndAngle(center: Point2D, startPoint: Point2D, angle: real, ccw: bool, math: MathLib): Arc2D
    requires Vector2D.Between(center, startPoint).Length(math) != 0.0
  {
    var radius := center.DistanceTo(startPoint, math);
    var dir1 := Vector2D.Between(center, startPoint);
    var basisX := dir1.Normalize(math);
    var basisY := if ccw then basisX.Vertical() else basisX.Vertical().Negate();
    FromAngles(center, radius, 0.0, angle, basisX, basisY)
  }

  // ---------------------------------------------------------------- the hits kept by Intersect

  /** The points of a list of intersection records, in order. */
  function PointsOf(hits: seq<IntersectResult<Point2D>>): (points: seq<Point2D>)
    ensures |points| == |hits|
    ensures forall i :: 0 <= i < |hits| ==> points[i] == hits[i].Point
  {
    if |hits| == 0 then [] else PointsOf(hits[..|hits| - 1]) + [hits[|hits| - 1].Point]
  }

  /**
   * `xs` is `ys` with some elements left out and the rest in their order:
   * the last element of `ys` is either left out or matched by the last of `xs`.
   */
  predicate IsSublist(xs: seq<Point2D>, ys: seq<Point2D>)
    decreases |ys|
  {
    if |ys| == 0 then |xs| == 0
    else
      || IsSublist(xs, ys[..|ys| - 1])
      || (|xs| > 0 && xs[|xs| - 1] == ys[|ys| - 1] && IsSublist(xs[..|xs| - 1], ys[..|ys| - 1]))
  }

  /**
   * Intersect keeps an order-preserving sublist of the circle's hits: the
   * points it keeps are the circle's points in their order with some left out.
   */
  lemma {:induction false} KeptIsSublist(arc: Arc2D, items: seq<IntersectResult<Point2D>>, oA: Vector2D, oB: Vector2D, math: MathLib)
    ensures IsSublist(PointsOf(arc.Kept(items, oA, oB, math)), PointsOf(items))
    decreases |items|
  {
    if |items| > 0 {
      var init := items[..|items| - 1];
      KeptIsSublist(arc, init, oA, oB, math);
      var rest := arc.Kept(init, oA, oB, math);
      assert PointsOf(items)[..|items| - 1] == PointsOf(init);
      match arc.Judge(items[|items| - 1], oA, oB, math)
      case Some(h) =>
        assert PointsOf(rest + [h])[..|rest|] == PointsOf(rest);
      case None =>
    }
  }

  /**
   * The hits kept are exactly those passing the angle test: every kept point
   * passes it, every passing point is kept, and none is added.
   */
  lemma {:induction false} KeptSelects(arc: Arc2D, items: seq<IntersectResult<Point2D>>, oA: Vector2D, oB: Vector2D, math: MathLib)
    ensures |arc.Kept(items, oA, oB, math)| <= |items|
    ensures forall h <- arc.Kept(items, oA, oB, math) :: h.Point in PointsOf(items) && arc.OnArcAngles(h.Point, oA, oB, math)
    ensures forall item <- items :: arc.OnArcAngles(item.Point, oA, oB, math) ==> item.Point in PointsOf(arc.Kept(items, oA, oB, math))
    decreases |items|
  {
    if |items| > 0 {
      var init := items[..|items| - 1];
      var last := items[|items| - 1];
      KeptSelects(arc, init, oA, oB, math);
      var rest := arc.Kept(init, oA, oB, math);
      assert PointsOf(items) == PointsOf(init) + [last.Point];
      assert forall item <- items :: item in init || item == last;
      match arc.Judge(last, oA, oB, math)
      case Some(h) =>
        assert PointsOf(rest + [h]) == PointsOf(rest) + [h.Point];
      case None =>
    }
  }

  /**
   * For a sweep of at most half a turn, the U parameter of each kept hit is
   * its angle from the start as a fraction of the sweep, as for GetPoint.
   */
  lemma {:induction false} KeptParameters(arc: Arc2D, items: seq<IntersectResult<Point2D>>, oA: Vector2D, oB: Vector2D, math: MathLib)
    requires arc.Span() <= math.PI
    ensures forall h <- arc.Kept(items, oA, oB, math) ::
      arc.OnArcAngles(h.Point, oA, oB, math) && h.UParameter * arc.Span() == oA.AngleTo(Vector2D.Between(arc.Center(), h.Point), math)
    decreases |items|
  {
    if |items| > 0 {
      KeptParameters(arc, items[..|items| - 1], oA, oB, math);
    }
  }

  /**
   * On a line that is neither horizontal nor vertical, every point Intersect
   * keeps lies on the line, and on the arc's circle: exactly at the radius
   * when the circle gave two points, within the tolerance of it when one.
   */
  lemma IntersectOnLineAndCircle(arc: Arc2D, line: Line2D, math: MathLib)
    requires Lawful(math) && Abs(line.A) >= Tolerance && Abs(line.B) >= Tolerance
    requires arc.IntersectDefined(line, math)
    ensures var hits := arc.Circle().IntersectLine(line, math);
      hits.Some? ==>
        var kept := arc.Kept(hits.value, Vector2D.Between(arc.Center(), arc.StartPoint(math)),
                             Vector2D.Between(arc.Center(), arc.EndPoint(math)), math);
        && (forall h <- kept :: line.IsInner(h.Point))
        && (|hits.value| == 2 ==> forall h <- kept :: arc.Center().DistanceTo(h.Point, math) == arc.Radius)
        && (|hits.value| == 1 ==> forall h <- kept :: Abs(arc.Center().DistanceTo(h.Point, math) - arc.Radius) <= Tolerance)
  {
    var hits := arc.Circle().IntersectLine(line, math);
    LineHitsOnCircle(arc.Circle(), line, math);
    if hits.Some? {
      var oA := Vector2D.Between(arc.Center(), arc.StartPoint(math));
      var oB := Vector2D.Between(arc.Center(), arc.EndPoint(math));
      var kept := arc.Kept(hits.value, oA, oB, math);
      KeptSelects(arc, hits.value, oA, oB, math);
      KeptAmongHits(hits.value, kept, line, arc.Center(), arc.Radius, math);
    }
  }

  /**
   * Points chosen among hits that all lie on a line, and on a circle (or
   * within the tolerance of it for a single hit), lie there too.
   */
  lemma KeptAmongHits(hits: seq<IntersectResult<Point2D>>, kept: seq<IntersectResult<Point2D>>,
                      line: Line2D, center: Point2D, radius: real, math: MathLib)
    requires forall h <- kept :: h.Point in PointsOf(hits)
    requires forall h <- hits :: line.IsInner(h.Point)
    requires |hits| == 2 ==> forall h <- hits :: center.DistanceTo(h.Point, math) == radius
    requires |hits| == 1 ==> Abs(center.DistanceTo(hits[0].Point, math) - radius) <= Tolerance
    ensures forall h <- kept :: line.IsInner(h.Point)
    ensures |hits| == 2 ==> forall h <- kept :: center.DistanceTo(h.Point, math) == radius
    ensures |hits| == 1 ==> forall h <- kept :: Abs(center.DistanceTo(h.Point, math) - radius) <= Tolerance
  {
    forall h <- kept
      ensures exists i :: 0 <= i < |hits| && hits[i].Point == h.Point
    {
      var i :| 0 <= i < |hits| && PointsOf(hits)[i] == h.Point;
    }
    forall h <- kept
      ensures line.IsInner(h.Point)
    {
      var i :| 0 <= i < |hits| && hits[i].Point == h.Point;
      assert hits[i] in hits;
    }
    if |hits| == 2 {
      forall h <- kept
        ensures center.DistanceTo(h.Point, math) == radius
      {
        var i :| 0 <= i < |hits| && hits[i].Point == h.Point;
        assert hits[i] in hits;
      }
    }
  }

  // ---------------------------------------------------------------- points of the arc

  /** A combination of a unit vector and a quarter turn of it has the squared length of its coefficients. */
  lemma OrthonormalCombination(u: Vector2D, w: Vector2D, x: real, y: real)
    requires u.SquareLength() == 1.0
    requires w == u.Vertical() || w == u.Vertical().Negate()
    ensures u.Scaled(x).Plus(w.Scaled(y)).SquareLength() == x * x + y * y
  {
    var a, b := u.X, u.Y;
    if w == u.Vertical() {
      assert u.Scaled(x).Plus(w.Scaled(y)) == Vector2D(x * a - y * b, x * b + y * a);
      assert (x * a - y * b) * (x * a - y * b) + (x * b + y * a) * (x * b + y * a) == (x * x + y * y) * (a * a + b * b);
    } else {
      assert u.Scaled(x).Plus(w.Scaled(y)) == Vector2D(x * a + y * b, x * b - y * a);
      assert (x * a + y * b) * (x * a + y * b) + (x * b - y * a) * (x * b - y * a) == (x * x + y * y) * (a * a + b * b);
    }
  }

  /** The point at a ratio is the centre plus the polar coordinates taken along the two bases. */
  lemma RadialVector(arc: Arc2D, ratio: real, math: MathLib)
    ensures var q := Polar(arc.Radius, arc.AngleAt(ratio), math);
      Vector2D.Between(arc.Center(), arc.GetPoint(ratio, math))
        == arc.Transform.BasisX().Scaled(q.X).Plus(arc.Transform.BasisY().Scaled(q.Y))
  {
    var q := Polar(arc.Radius, arc.AngleAt(ratio), math);
    var a, b := arc.Transform.BasisX().Scaled(q.X), arc.Transform.BasisY().Scaled(q.Y);
    assert arc.GetPoint(ratio, math) == arc.Center().Add(a).Add(b) by {
      assert arc.GetPoint(ratio, math) == arc.Transform.OfPoint(q);
      OfPointFormula(arc.Transform, q);
    }
    assert Vector2D.Between(arc.Center(), arc.Center().Add(a).Add(b)) == a.Plus(b);
  }

  /** (r cos a)^2 + (r sin a)^2 = r^2. */
  lemma PolarSquare(radius: real, angle: real, math: MathLib)
    requires Lawful(math)
    ensures var q := Polar(radius, angle, math); q.X * q.X + q.Y * q.Y == radius * radius
  {
    var c, s := math.Cos(angle), math.Sin(angle);
    assert (radius * c) * (radius * c) + (radius * s) * (radius * s) == (radius * radius) * (s * s + c * c);
  }

  /** In an orthonormal frame the radial vector is as long as the polar coordinates say. */
  lemma RadialSquare(arc: Arc2D, ratio: real, math: MathLib)
    requires arc.HasOrthonormalFrame()
    ensures var q := Polar(arc.Radius, arc.AngleAt(ratio), math);
      Vector2D.Between(arc.Center(), arc.GetPoint(ratio, math)).SquareLength() == q.X * q.X + q.Y * q.Y
  {
    var q := Polar(arc.Radius, arc.AngleAt(ratio), math);
    RadialVector(arc, ratio, math);
    OrthonormalCombination(arc.Transform.BasisX(), arc.Transform.BasisY(), q.X, q.Y);
  }

  /** In an orthonormal frame every point of the arc is |radius| from the centre. */
  lemma GetPointOnCircle(arc: Arc2D, ratio: real, math: MathLib)
    requires Lawful(math) && arc.HasOrthonormalFrame()
    ensures arc.Center().DistanceTo(arc.GetPoint(ratio, math), math) == Abs(arc.Radius)
  {
    RadialSquare(arc, ratio, math);
    PolarSquare(arc.Radius, arc.AngleAt(ratio), math);
    DistanceFromSquare(arc.Center(), arc.GetPoint(ratio, math), arc.Radius, math);
  }

  /** A point whose squared distance is r^2 is at distance |r|. */
  lemma DistanceFromSquare(c: Point2D, p: Point2D, r: real, math: MathLib)
    requires Lawful(math) && Vector2D.Between(c, p).SquareLength() == r * r
    ensures c.DistanceTo(p, math) == Abs(r)
  {
    BetweenProperties(c, p);
    SqrtOfSquare(math, r);
  }

  /** When the start angle is 0, the start point is the centre moved by the radius along the X basis. */
  lemma StartPointOnBasis(arc: Arc2D, math: MathLib)
    requires Lawful(math) && arc.StartAngle == 0.0
    ensures arc.StartPoint(math) == arc.Center().Add(arc.Transform.BasisX().Scaled(arc.Radius))
  {
    assert Polar(arc.Radius, arc.AngleAt(0.0), math) == Point2D(arc.Radius, 0.0);
    OfPointFormula(arc.Transform, Point2D(arc.Radius, 0.0));
  }

  /** Length is the radius times the sweep, so it is zero for a zero sweep and flips sign with the sweep. */
  lemma LengthSpec(arc: Arc2D)
    ensures arc.Length() == arc.Radius * arc.Span()
    ensures arc.Span() == 0.0 ==> arc.Length() == 0.0
    ensures arc.(StartAngle := arc.EndAngle, EndAngle := arc.StartAngle).Length() == -arc.Length()
  {
  }

  // ---------------------------------------------------------------- frames built by the constructors

  /** The Y basis a quarter turn counter-clockwise from a unit X basis makes a right-handed frame; the opposite one does not. */
  lemma QuarterTurnHandedness(t: Transform2D)
    requires t.BasisX().SquareLength() == 1.0
    ensures t.BasisY() == t.BasisX().Vertical() ==> t.IsRightHand()
    ensures t.BasisY() == t.BasisX().Vertical().Negate() ==> !t.IsRightHand()
  {
    var a, b := t.BasisXX, t.BasisXY;
    if t.BasisY() == t.BasisX().Vertical() {
      assert a * a - b * -b == 1.0;
    } else if t.BasisY() == t.BasisX().Vertical().Negate() {
      assert a * -a - b * b == -1.0;
    }
  }

  /** The frame on a unit X basis, turning one way or the other. */
  lemma UnitFrame(center: Point2D, basisX: Vector2D, radius: real, startAngle: real, endAngle: real, ccw: bool)
    requires basisX.SquareLength() == 1.0
    ensures var arc := FromAngles(center, radius, startAngle, endAngle, basisX, if ccw then basisX.Vertical() else basisX.Vertical().Negate());
      && arc.HasOrthonormalFrame()
      && (arc.Transform.IsRightHand() <==> ccw)
      && arc.Center() == center
  {
    var basisY := if ccw then basisX.Vertical() else basisX.Vertical().Negate();
    var t := FromFrame(center, basisX, basisY);
    QuarterTurnHandedness(t);
    assert t.IsRightHand() <==> ccw;
  }

  /** The radius along the unit vector to the start point, from angle 0, lands exactly on the start point. */
  lemma StartsOnStartPoint(center: Point2D, startPoint: Point2D, endAngle: real, basisY: Vector2D, math: MathLib)
    requires Lawful(math) && Vector2D.Between(center, startPoint).Length(math) != 0.0
    ensures var basisX := Vector2D.Between(center, startPoint).Normalize(math);
      FromAngles(center, center.DistanceTo(startPoint, math), 0.0, endAngle, basisX, basisY).StartPoint(math) == startPoint
  {
    var dir := Vector2D.Between(center, startPoint);
    LengthProperties(dir, math);
    NormalizeIsUnit(dir, math);
    DistanceProperties(center, startPoint, math);
    BetweenProperties(center, startPoint);
    StartPointOnBasis(FromAngles(center, center.DistanceTo(startPoint, math), 0.0, endAngle, dir.Normalize(math), basisY), math);
  }

  /**
   * The arc from a centre, a start point and a sweep: centred there, with
   * radius the distance to the start point, starting at angle 0 exactly on
   * the start point, sweeping `angle`, and right-handed exactly when `ccw`.
   */
  lemma FromCenterAndAngleSpec(center: Point2D, startPoint: Point2D, angle: real, ccw: bool, math: MathLib)
    requires Lawful(math) && Vector2D.Between(center, startPoint).Length(math) != 0.0
    ensures var arc := FromCenterAndAngle(center, startPoint, angle, ccw, math);
      && arc.Center() == center
      && arc.Radius == center.DistanceTo(startPoint, math)
      && arc.StartAngle == 0.0 && arc.Span() == angle
      && arc.Length() == center.DistanceTo(startPoint, math) * angle
      && arc.HasOrthonormalFrame()
      && (arc.Transform.IsRightHand() <==> ccw)
      && arc.StartPoint(math) == startPoint
  {
    var basisX := Vector2D.Between(center, startPoint).Normalize(math);
    LengthProperties(Vector2D.Between(center, startPoint), math);
    NormalizeIsUnit(Vector2D.Between(center, startPoint), math);
    UnitFrame(center, basisX, center.DistanceTo(startPoint, math), 0.0, angle, ccw);
    StartsOnStartPoint(center, startPoint, angle, if ccw then basisX.Vertical() else basisX.Vertical().Negate(), math);
  }

  /**
   * The arc from a centre and two points: ArgumentException exactly when
   * the two radii differ by more than the tolerance; otherwise centred
   * there, with the mean radius (within half the tolerance of both),
   * starting at angle 0 on the ray to the start point, right-handed exactly
   * when `ccw`, and sweeping the angle between the radii when the turn from
   * the first radius to the second agrees with `ccw`, its complement to a
   * full turn otherwise; either way between 0 and a full turn.
   */
  lemma FromCenterSpec(center: Point2D, startPoint: Point2D, endPoint: Point2D, ccw: bool, math: MathLib)
    requires Lawful(math) && FromCenterDefined(center, startPoint, endPoint, math)
    ensures var r1 := center.DistanceTo(startPoint, math);
      var r2 := center.DistanceTo(endPoint, math);
      var r := FromCenter(center, startPoint, endPoint, ccw, math);
      && (r.Failure? <==> Abs(r1 - r2) > Tolerance)
      && (r.Failure? ==> r.error == Argument)
      && (r.Success? ==>
            var arc := r.value;
            var dir1 := Vector2D.Between(center, startPoint);
            var dir2 := Vector2D.Between(center, endPoint);
            && arc.Center() == center
            && Abs(arc.Radius - r1) <= Tolerance / 2.0 && Abs(arc.Radius - r2) <= Tolerance / 2.0
            && arc.StartAngle == 0.0
            && arc.StartPoint(math) == center.Add(dir1.Normalize(math).Scaled(arc.Radius))
            && arc.HasOrthonormalFrame()
            && (arc.Transform.IsRightHand() <==> ccw)
            && (arc.EndAngle == dir1.AngleTo(dir2, math) <== (dir1.IsCounterClockwise(dir2) == ccw))
            && (arc.EndAngle == 2.0 * math.PI - dir1.AngleTo(dir2, math) <== (dir1.IsCounterClockwise(dir2) != ccw))
            && 0.0 <= arc.EndAngle <= 2.0 * math.PI)
  {
    var r1 := center.DistanceTo(startPoint, math);
    var r2 := center.DistanceTo(endPoint, math);
    var r := FromCenter(center, startPoint, endPoint, ccw, math);
    if r.Success? {
      var dir1 := Vector2D.Between(center, startPoint);
      var dir2 := Vector2D.Between(center, endPoint);
      LengthProperties(dir1, math);
      NormalizeIsUnit(dir1, math);
      UnitFrame(center, dir1.Normalize(math), r.value.Radius, 0.0, r.value.EndAngle, ccw);
      AngleToRange(dir1, dir2, math);
      StartPointOnBasis(r.value, math);
    }
  }

  /** The arc through three points is centred on their circumcentre, which is equally far from all three. */
  lemma ThroughPointsCentre(startPoint: Point2D, endPoint: Point2D, midPoint: Point2D, math: MathLib)
    requires Lawful(math) && ThroughPointsDefined(startPoint, endPoint, midPoint, math)
    ensures var arc := ThroughPoints(startPoint, endPoint, midPoint, math);
      && arc.Center() == Triangles2D.Triangle2D(startPoint, endPoint, midPoint).CircumCenter()
      && arc.Radius == arc.Center().DistanceTo(startPoint, math)
      && arc.Center().DistanceTo(endPoint, math) == arc.Radius
      && arc.Center().DistanceTo(midPoint, math) == arc.Radius
  {
    var triangle := Triangles2D.Triangle2D(startPoint, endPoint, midPoint);
    Triangles2D.CircumCenterSpec(triangle);
  }

  /**
   * The arc through three points starts at angle 0 exactly on the start
   * point, sweeps between 0 and a full turn, and is right-handed exactly
   * when the turn at the middle point from the end point to the start point
   * is counter-clockwise.
   */
  lemma ThroughPointsSpec(startPoint: Point2D, endPoint: Point2D, midPoint: Point2D, math: MathLib)
    requires Lawful(math) && ThroughPointsDefined(startPoint, endPoint, midPoint, math)
    ensures var arc := ThroughPoints(startPoint, endPoint, midPoint, math);
      && arc.StartAngle == 0.0
      && 0.0 <= arc.EndAngle <= 2.0 * math.PI
      && arc.StartPoint(math) == startPoint
      && arc.HasOrthonormalFrame()
      && (arc.Transform.IsRightHand() <==>
            Vector2D.Between(midPoint, endPoint).IsCounterClockwise(Vector2D.Between(midPoint, startPoint)))
  {
    var center := Triangles2D.Triangle2D(startPoint, endPoint, midPoint).CircumCenter();
    var arc := ThroughPoints(startPoint, endPoint, midPoint, math);
    var turn := Vector2D.Between(midPoint, endPoint).IsCounterClockwise(Vector2D.Between(midPoint, startPoint));
    var basisX := Vector2D.Between(center, startPoint).Normalize(math);
    LengthProperties(Vector2D.Between(center, startPoint), math);
    NormalizeIsUnit(Vector2D.Between(center, startPoint), math);
    UnitFrame(center, basisX, arc.Radius, 0.0, arc.EndAngle, turn);
    StartsOnStartPoint(center, startPoint, arc.EndAngle, if turn then basisX.Vertical() else basisX.Vertical().Negate(), math);
    AngleToRange(Vector2D.Between(center, startPoint), Vector2D.Between(center, endPoint), math);
  }

  // ---------------------------------------------------------------- derived arcs

  /** Rebuilding a frame from its origin and bases gives it back when its homogeneous row is (0, 0, 1). */
  lemma FrameRebuilt(t: Transform2D)
    requires t.IsAffine()
    ensures FromFrame(t.Origin(), t.BasisX(), t.BasisY()) == t
  {
  }

  /**
   * Extend fails with ArgumentException exactly when the stretched sweep,
   * (1 + start + end) times the old one, exceeds a full turn; otherwise it
   * keeps the frame and the radius, stretches the length by the same
   * factor, and its point at a ratio is the old arc's point at the ratio
   * stretched and shifted back by `start`.
   */
  lemma ExtendSpec(arc: Arc2D, start: real, end: real, ratio: real, math: MathLib)
    requires arc.Transform.IsAffine()
    ensures var r := arc.Extend(start, end, math);
      && (r.Failure? <==> (1.0 + start + end) * arc.Span() > 2.0 * math.PI)
      && (r.Failure? ==> r.error == Argument)
      && (r.Success? ==>
            && r.value.Transform == arc.Transform
            && r.value.Radius == arc.Radius
            && r.value.Span() == (1.0 + start + end) * arc.Span()
            && r.value.Length() == (1.0 + start + end) * arc.Length()
            && r.value.GetPoint(ratio, math) == arc.GetPoint(ratio * (1.0 + start + end) - start, math))
  {
    var ext := Arc2D(arc.Transform, arc.Radius, arc.StartAngle - start * arc.Span(), arc.EndAngle + end * arc.Span());
    assert ext.Span() == (1.0 + start + end) * arc.Span();
    assert arc.Radius * ((1.0 + start + end) * arc.Span()) == (1.0 + start + end) * (arc.Radius * arc.Span());
    FrameRebuilt(arc.Transform);
    if arc.Extend(start, end, math).Success? {
      assert FromAngles(arc.Transform.Origin(), arc.Radius, ext.StartAngle, ext.EndAngle,
                        arc.Transform.BasisX(), arc.Transform.BasisY()) == ext;
      assert arc.Extend(start, end, math).value == ext;
      ExtendedPoint(arc, start, end, ratio, math);
    }
  }

  /** The stretched arc's point at a ratio is the old arc's point at the stretched, shifted ratio. */
  lemma ExtendedPoint(arc: Arc2D, start: real, end: real, ratio: real, math: MathLib)
    ensures Arc2D(arc.Transform, arc.Radius, arc.StartAngle - start * arc.Span(), arc.EndAngle + end * arc.Span()).GetPoint(ratio, math)
         == arc.GetPoint(ratio * (1.0 + start + end) - start, math)
  {
    var ext := Arc2D(arc.Transform, arc.Radius, arc.StartAngle - start * arc.Span(), arc.EndAngle + end * arc.Span());
    assert ext.AngleAt(ratio) == arc.AngleAt(ratio * (1.0 + start + end) - start) by {
      StretchedAngle(arc.StartAngle, arc.EndAngle, start, end, ratio);
    }
    SamePoint(ext, arc, ratio, ratio * (1.0 + start + end) - start, math);
  }

  /** The point at a ratio is the frame applied to the polar point at that ratio's angle. */
  lemma PointInFrame(arc: Arc2D, ratio: real, math: MathLib)
    ensures arc.GetPoint(ratio, math) == arc.Transform.OfPoint(Polar(arc.Radius, arc.AngleAt(ratio), math))
  {
  }

  /** Two arcs in the same frame with the same radius have the same point wherever their angles agree. */
  lemma SamePoint(arc: Arc2D, other: Arc2D, ratio: real, otherRatio: real, math: MathLib)
    requires arc.Transform == other.Transform && arc.Radius == other.Radius
    requires arc.AngleAt(ratio) == other.AngleAt(otherRatio)
    ensures arc.GetPoint(ratio, math) == other.GetPoint(otherRatio, math)
  {
  }

  lemma StretchedAngle(a: real, b: real, s: real, e: real, r: real)
    ensures var lo := a - s * (b - a);
      var hi := b + e * (b - a);
      lo + r * (hi - lo) == a + (r * (1.0 + s + e) - s) * (b - a)
  {
    var lo := a - s * (b - a);
    var hi := b + e * (b - a);
    assert hi - lo == (1.0 + s + e) * (b - a);
    assert r * (hi - lo) == r * ((1.0 + s + e) * (b - a));
  }

  /**
   * CreateOffset keeps the frame and the angles and adds the offset to the
   * radius, so the length grows by the offset times the sweep.
   */
  lemma OffsetSpec(arc: Arc2D, offsetDist: real)
    requires arc.Transform.IsAffine()
    ensures var o := arc.CreateOffset(offsetDist);
      && o.Transform == arc.Transform
      && o.StartAngle == arc.StartAngle && o.EndAngle == arc.EndAngle
      && o.Radius == arc.Radius + offsetDist
      && o.Length() == arc.Length() + offsetDist * arc.Span()
  {
    FrameRebuilt(arc.Transform);
    assert (arc.Radius + offsetDist) * arc.Span() == arc.Radius * arc.Span() + offsetDist * arc.Span();
  }

  /**
   * In an orthonormal frame each point of the offset arc lies |offset| from
   * the point of the original arc at the same ratio, along the radius.
   */
  lemma OffsetPointsMove(arc: Arc2D, offsetDist: real, ratio: real, math: MathLib)
    requires Lawful(math) && arc.HasOrthonormalFrame()
    ensures arc.GetPoint(ratio, math).DistanceTo(arc.CreateOffset(offsetDist).GetPoint(ratio, math), math) == Abs(offsetDist)
    ensures arc.Center().DistanceTo(arc.CreateOffset(offsetDist).GetPoint(ratio, math), math) == Abs(arc.Radius + offsetDist)
  {
    assert Vector2D.Between(arc.GetPoint(ratio, math), arc.CreateOffset(offsetDist).GetPoint(ratio, math)).SquareLength()
        == offsetDist * offsetDist by {
      PolarSquare(offsetDist, arc.AngleAt(ratio), math);
      OffsetSquare(arc, offsetDist, ratio, math);
    }
    DistanceFromSquare(arc.GetPoint(ratio, math), arc.CreateOffset(offsetDist).GetPoint(ratio, math), offsetDist, math);
    FrameRebuilt(arc.Transform);
    GetPointOnCircle(arc.CreateOffset(offsetDist), ratio, math);
  }

  /** The squared step from a point of the arc to the offset arc's point, given the polar square of the offset. */
  lemma OffsetSquare(arc: Arc2D, offsetDist: real, ratio: real, math: MathLib)
    requires arc.HasOrthonormalFrame()
    requires var dq := Polar(offsetDist, arc.AngleAt(ratio), math); dq.X * dq.X + dq.Y * dq.Y == offsetDist * offsetDist
    ensures Vector2D.Between(arc.GetPoint(ratio, math), arc.CreateOffset(offsetDist).GetPoint(ratio, math)).SquareLength()
         == offsetDist * offsetDist
  {
    var dq := Polar(offsetDist, arc.AngleAt(ratio), math);
    OffsetStep(arc, offsetDist, ratio, math);
    OrthonormalCombination(arc.Transform.BasisX(), arc.Transform.BasisY(), dq.X, dq.Y);
  }

  /** The step from a point of the arc to the offset arc's point is the offset's polar coordinates along the bases. */
  lemma OffsetStep(arc: Arc2D, offsetDist: real, ratio: real, math: MathLib)
    requires arc.Transform.IsAffine()
    ensures var dq := Polar(offsetDist, arc.AngleAt(ratio), math);
      Vector2D.Between(arc.GetPoint(ratio, math), arc.CreateOffset(offsetDist).GetPoint(ratio, math))
        == arc.Transform.BasisX().Scaled(dq.X).Plus(arc.Transform.BasisY().Scaled(dq.Y))
  {
    var o := arc.CreateOffset(offsetDist);
    FrameRebuilt(arc.Transform);
    var t := arc.Transform;
    var q1, q2 := Polar(arc.Radius, arc.AngleAt(ratio), math), Polar(o.Radius, o.AngleAt(ratio), math);
    var dq := Polar(offsetDist, arc.AngleAt(ratio), math);
    assert q2.X == q1.X + dq.X && q2.Y == q1.Y + dq.Y by {
      assert o.AngleAt(ratio) == arc.AngleAt(ratio);
    }
    PointInFrame(o, ratio, math);
    PointInFrame(arc, ratio, math);
    OfPointComponents(t, q1);
    OfPointComponents(t, q2);
    StepRow(t.OriginX, t.BasisXX, t.BasisYX, q1.X, q1.Y, dq.X, dq.Y);
    StepRow(t.OriginY, t.BasisXY, t.BasisYY, q1.X, q1.Y, dq.X, dq.Y);
  }

  /** One coordinate of the step between the images of two points. */
  lemma StepRow(o: real, a: real, b: real, x: real, y: real, dx: real, dy: real)
    ensures (o + (x + dx) * a + (y + dy) * b) - (o + x * a + y * b) == dx * a + dy * b
  {
  }

  /**
   * CreateTransformed keeps the radius and the angles, and when both frames
   * have homogeneous row (0, 0, 1) its point at every ratio is the
   * transform applied to the original arc's point.
   */
  lemma TransformedSpec(arc: Arc2D, transform: Transform2D, ratio: real, math: MathLib)
    requires arc.Transform.IsAffine() && transform.IsAffine()
    ensures var moved := arc.CreateTransformed(transform);
      && moved.Radius == arc.Radius && moved.StartAngle == arc.StartAngle && moved.EndAngle == arc.EndAngle
      && moved.Length() == arc.Length()
      && moved.Transform == transform.Multiply(arc.Transform)
      && moved.GetPoint(ratio, math) == transform.OfPoint(arc.GetPoint(ratio, math))
  {
    var trans := transform.Multiply(arc.Transform);
    MultiplyAffine(transform, arc.Transform);
    FrameRebuilt(trans);
    var moved := arc.CreateTransformed(transform);
    assert moved == arc.(Transform := trans);
    ComposedPoint(arc, transform, ratio, math);
  }

  /** Putting the arc in the frame `transform * frame` maps each of its points by the transform. */
  lemma ComposedPoint(arc: Arc2D, transform: Transform2D, ratio: real, math: MathLib)
    requires arc.Transform.IsAffine()
    ensures arc.(Transform := transform.Multiply(arc.Transform)).GetPoint(ratio, math) == transform.OfPoint(arc.GetPoint(ratio, math))
  {
    var q := Polar(arc.Radius, arc.AngleAt(ratio), math);
    var moved := arc.(Transform := transform.Multiply(arc.Transform));
    assert moved.Span() == arc.Span();
    assert moved.AngleAt(ratio) == arc.AngleAt(ratio);
    PointInFrame(moved, ratio, math);
    PointInFrame(arc, ratio, math);
    MultiplyComposes(transform, arc.Transform, q);
  }

  /**
   * CreateReversed starts where the arc ends, and its circle passes through
   * the arc's start point and its point at ratio one half.
   */
  lemma ReversedSpec(arc: Arc2D, math: MathLib)
    requires Lawful(math)
    requires ThroughPointsDefined(arc.GetPoint(1.0, math), arc.GetPoint(0.0, math), arc.GetPoint(0.5, math), math)
    ensures var rev := arc.CreateReversed(math);
      && rev.StartPoint(math) == arc.EndPoint(math)
      && rev.Center().DistanceTo(arc.StartPoint(math), math) == rev.Radius
      && rev.Center().DistanceTo(arc.GetPoint(0.5, math), math) == rev.Radius
  {
    ThroughPointsSpec(arc.GetPoint(1.0, math), arc.GetPoint(0.0, math), arc.GetPoint(0.5, math), math);
    ThroughPointsCentre(arc.GetPoint(1.0, math), arc.GetPoint(0.0, math), arc.GetPoint(0.5, math), math);
  }
}
