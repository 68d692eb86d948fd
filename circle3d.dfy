/**
 * Circle3D: a circle of space given by its centre, radius and the normal of
 * its plane, with its area and its intersection with a space line.
 */
module Circles3D {
  import opened RealMath
  import opened Results
  import opened Primitives3D
  import opened Lines3D
  import opened Planes3D

  datatype Circle3D = Circle3D(Center: Point3D, Radius: real, Normal: Vector3D)
  {
    /** The plane through the centre with the circle's normal. */
    function Plane(): Plane3D { FromNormalAndPoint(Normal, Center) }

    /** pi r^2. */
    function Area(math: MathLib): real { math.PI * (Radius * Radius) }

    /**
     * The divisions Intersect performs are by non-zero numbers: the plane's
     * normal and the line's direction have a length, and on the coplanar
     * branch the line's origin is not the centre.
     */
    predicate IntersectDefined(line: Line3D, math: MathLib)
    {
      Plane().NormalVector().Length(math) != 0.0 && line.Direction.Length(math) != 0.0 &&
      (Plane().IsCoplanarLine(line, math) ==> Vector3D.Between(line.Origin, Center).Length(math) != 0.0)
    }

    /**
     * As written: a line in the circle's plane is handled from the point
     * `Line3D.Projection` returns for the centre, which keeps the centre's
     * distance to the line but is not the foot of the perpendicular; one
     * point when that distance is r, two half a chord either way along the
     * line when it is closer. A line crossing the plane meets it at the
     * plane hit when that is exactly r from the centre. `None` otherwise.
     */
    function Intersect(line: Line3D, math: MathLib): Option<seq<IntersectResult<Point3D>>>
      requires IntersectDefined(line, math)
    {
      if Plane().IsCoplanarLine(line, math) then
        ChordHits(line.Projection(Center, math), line.Direction, Radius, math)
      else CrossingHits(line, math)
    }

    /** The same, with the coplanar branch started from the foot of the perpendicular. */
    function IntersectCorrected(line: Line3D, math: MathLib): Option<seq<IntersectResult<Point3D>>>
      requires IntersectDefined(line, math)
    {
      if Plane().IsCoplanarLine(line, math) then
        ChordHits(line.FootOfPerpendicular(Center, math), line.Direction, Radius, math)
      else CrossingHits(line, math)
    }

    /** A line crossing the plane: its plane hit, when that is exactly r from the centre. */
    function CrossingHits(line: Line3D, math: MathLib): Option<seq<IntersectResult<Point3D>>>
      requires Plane().NormalVector().Length(math) != 0.0 && line.Direction.Length(math) != 0.0
    {
      var iPoint := Plane().Intersect(line.Origin, line.Direction, math);
      if iPoint.Some? && Center.DistanceTo(iPoint.value, math) == Radius then Some([Hit(iPoint.value)])
      else None
    }
  }

  /**
   * The coplanar case, from the foot of the centre on the line: one point
   * when the foot is at distance r, two half a chord either way along the
   * direction when it is closer, none when it is farther.
   */
  function ChordHits(pRes: ProjectionResult<Point3D>, direction: Vector3D, radius: real, math: MathLib)
    : Option<seq<IntersectResult<Point3D>>>
  {
    if pRes.Distance == radius then Some([Hit(pRes.Point)])
    else if pRes.Distance < radius then
      var half := HalfChord(radius, pRes.Distance, math);
      Some([Hit(pRes.Point.Subtract(Vector3D.Times(half, direction))),
            Hit(pRes.Point.Add(Vector3D.Times(half, direction)))])
    else None
  }

  /** The circle's plane has the circle's normal and goes through the centre. */
  lemma PlaneContainsCentre(c: Circle3D)
    ensures c.Plane().NormalVector() == c.Normal
    ensures c.Plane().IsCoplanar(c.Center)
  {
    FromNormalAndPointSpec(c.Normal, c.Center, c.Center);
  }

  /** The area is pi r^2: zero for radius zero, positive otherwise. */
  lemma AreaSpec(c: Circle3D, math: MathLib)
    requires Lawful(math)
    ensures c.Area(math) >= 0.0
    ensures c.Area(math) == 0.0 <==> c.Radius == 0.0
  {
    SquareNonNegative(c.Radius);
    assert Mul(c.Radius, c.Radius) == c.Radius * c.Radius;
    MulNonNegative(math.PI, c.Radius * c.Radius);
    if c.Radius != 0.0 {
      MulPositive(math.PI, c.Radius * c.Radius);
    }
  }

  /**
   * How many points come back: in the plane, one when the foot is at
   * distance r, two when it is closer and none when it is farther; across the
   * plane at most one.
   */
  lemma IntersectCount(c: Circle3D, line: Line3D, math: MathLib)
    requires c.IntersectDefined(line, math)
    ensures c.Plane().IsCoplanarLine(line, math) ==>
      var d := line.FootOfPerpendicular(c.Center, math).Distance;
      (c.IntersectCorrected(line, math).Some? && |c.IntersectCorrected(line, math).value| == 1 <==> d == c.Radius) &&
      (c.IntersectCorrected(line, math).Some? && |c.IntersectCorrected(line, math).value| == 2 <==> d < c.Radius) &&
      (c.IntersectCorrected(line, math).None? <==> d > c.Radius)
    ensures !c.Plane().IsCoplanarLine(line, math) ==>
      c.IntersectCorrected(line, math).None? || |c.IntersectCorrected(line, math).value| == 1
  {
  }

  /** A line parallel to the circle's plane and off it does not meet the circle. */
  lemma ParallelMisses(c: Circle3D, line: Line3D, math: MathLib)
    requires Lawful(math) && c.Normal != Vector3D.Zero() && line.Direction != Vector3D.Zero()
    requires c.Normal.DotProduct(line.Direction) == 0.0 && !c.Plane().IsCoplanar(line.Origin)
    ensures c.IntersectDefined(line, math)
    ensures c.IntersectCorrected(line, math) == None
  {
    PlaneContainsCentre(c);
    LengthProperties(line.Direction, math);
    CoplanarLineSpec(c.Plane(), line, 0.0, math);
    IntersectSpec(c.Plane(), line.Origin, line.Direction, math);
  }

  /**
   * Every point Intersect returns, for a unit direction as the line's
   * constructor stores, is on the circle: in its plane, on the line and at
   * distance r from the centre.
   */
  lemma HitsOnCircle(c: Circle3D, line: Line3D, math: MathLib)
    requires Lawful(math) && c.Normal != Vector3D.Zero() && line.Direction.SquareLength() == 1.0
    requires c.IntersectDefined(line, math) && c.IntersectCorrected(line, math).Some?
    ensures forall h <- c.IntersectCorrected(line, math).value ::
      c.Plane().IsCoplanar(h.Point) && line.IsInner(h.Point, math) && c.Center.DistanceTo(h.Point, math) == c.Radius
  {
    PlaneContainsCentre(c);
    if c.Plane().IsCoplanarLine(line, math) {
      CoplanarHitsOnCircle(c, line, math);
    } else {
      CrossingHitOnCircle(c, line, math);
    }
  }

  lemma CrossingHitOnCircle(c: Circle3D, line: Line3D, math: MathLib)
    requires Lawful(math) && c.Normal != Vector3D.Zero() && c.Plane().NormalVector() == c.Normal
    requires c.IntersectDefined(line, math) && !c.Plane().IsCoplanarLine(line, math)
    requires c.IntersectCorrected(line, math).Some?
    ensures forall h <- c.IntersectCorrected(line, math).value ::
      c.Plane().IsCoplanar(h.Point) && line.IsInner(h.Point, math) && c.Center.DistanceTo(h.Point, math) == c.Radius
  {
    assert line.Direction != Vector3D.Zero() by { ZeroLength(math); }
    IntersectLineHit(c.Plane(), line, math);
  }

  lemma CoplanarHitsOnCircle(c: Circle3D, line: Line3D, math: MathLib)
    requires Lawful(math) && c.Normal != Vector3D.Zero() && c.Plane().NormalVector() == c.Normal
    requires line.Direction.SquareLength() == 1.0
    requires c.IntersectDefined(line, math) && c.Plane().IsCoplanarLine(line, math)
    ensures c.IntersectCorrected(line, math).Some? ==> forall h <- c.IntersectCorrected(line, math).value ::
      c.Plane().IsCoplanar(h.Point) && line.IsInner(h.Point, math) && c.Center.DistanceTo(h.Point, math) == c.Radius
  {
    FootFacts(c, line, math);
    var d := line.FootOfPerpendicular(c.Center, math).Distance;
    if d == c.Radius {
      TangentOnCircle(c, line, math);
    } else if d < c.Radius {
      ChordOnCircle(c, line, math);
    }
  }

  /** The one point of a tangent line in the plane is on the circle. */
  lemma TangentOnCircle(c: Circle3D, line: Line3D, math: MathLib)
    requires Lawful(math) && c.Normal != Vector3D.Zero() && c.Plane().NormalVector() == c.Normal
    requires line.Direction.SquareLength() == 1.0
    requires c.IntersectDefined(line, math) && c.Plane().IsCoplanarLine(line, math)
    requires line.FootOfPerpendicular(c.Center, math).Point == line.Foot(c.Center)
    requires line.FootOfPerpendicular(c.Center, math).Distance == c.Radius >= 0.0
    requires Vector3D.Between(line.Foot(c.Center), c.Center).DotProduct(line.Direction) == 0.0
    requires Vector3D.Between(line.Foot(c.Center), c.Center).SquareLength() == c.Radius * c.Radius
    ensures c.IntersectCorrected(line, math).Some?
    ensures forall h <- c.IntersectCorrected(line, math).value ::
      c.Plane().IsCoplanar(h.Point) && line.IsInner(h.Point, math) && c.Center.DistanceTo(h.Point, math) == c.Radius
  {
    OneHit(line.FootOfPerpendicular(c.Center, math), line.Direction, c.Radius, math);
    OnCircleAlong(c, line, 0.0, c.Radius, math);
  }

  /** The two points of a secant line in the plane are on the circle. */
  lemma ChordOnCircle(c: Circle3D, line: Line3D, math: MathLib)
    requires Lawful(math) && c.Normal != Vector3D.Zero() && c.Plane().NormalVector() == c.Normal
    requires line.Direction.SquareLength() == 1.0
    requires c.IntersectDefined(line, math) && c.Plane().IsCoplanarLine(line, math)
    requires line.FootOfPerpendicular(c.Center, math).Point == line.Foot(c.Center)
    requires 0.0 <= line.FootOfPerpendicular(c.Center, math).Distance < c.Radius
    requires Vector3D.Between(line.Foot(c.Center), c.Center).DotProduct(line.Direction) == 0.0
    requires Vector3D.Between(line.Foot(c.Center), c.Center).SquareLength()
      == line.FootOfPerpendicular(c.Center, math).Distance * line.FootOfPerpendicular(c.Center, math).Distance
    ensures c.IntersectCorrected(line, math).Some?
    ensures forall h <- c.IntersectCorrected(line, math).value ::
      c.Plane().IsCoplanar(h.Point) && line.IsInner(h.Point, math) && c.Center.DistanceTo(h.Point, math) == c.Radius
  {
    var d := line.FootOfPerpendicular(c.Center, math).Distance;
    var h := HalfChord(c.Radius, d, math);
    SecantPoints(c, line, math, h);
    ChordEnds(c, line, d, h, math);
  }

  /** Both ends of the chord, half a chord either side of the centre's foot, are on the circle. */
  lemma ChordEnds(c: Circle3D, line: Line3D, d: real, h: real, math: MathLib)
    requires Lawful(math) && c.Normal != Vector3D.Zero() && c.Plane().NormalVector() == c.Normal
    requires line.Direction.SquareLength() == 1.0 && 0.0 <= d < c.Radius
    requires c.Plane().NormalVector().Length(math) != 0.0 && c.Plane().IsCoplanarLine(line, math)
    requires Vector3D.Between(line.Foot(c.Center), c.Center).DotProduct(line.Direction) == 0.0
    requires Vector3D.Between(line.Foot(c.Center), c.Center).SquareLength() == d * d
    requires h == HalfChord(c.Radius, d, math)
    ensures forall s | s == -h || s == h ::
      c.Plane().IsCoplanar(line.Foot(c.Center).Add(Vector3D.Times(s, line.Direction)))
      && line.IsInner(line.Foot(c.Center).Add(Vector3D.Times(s, line.Direction)), math)
      && c.Center.DistanceTo(line.Foot(c.Center).Add(Vector3D.Times(s, line.Direction)), math) == c.Radius
  {
    HalfChordSpec(c.Radius, d, math);
    OnCircleAlong(c, line, -h, d, math);
    OnCircleAlong(c, line, h, d, math);
  }

  /** A secant line in the plane meets the circle half a chord either side of the centre's foot. */
  lemma SecantPoints(c: Circle3D, line: Line3D, math: MathLib, h: real)
    requires c.IntersectDefined(line, math) && c.Plane().IsCoplanarLine(line, math)
    requires line.FootOfPerpendicular(c.Center, math).Point == line.Foot(c.Center)
    requires line.FootOfPerpendicular(c.Center, math).Distance < c.Radius
    requires h == HalfChord(c.Radius, line.FootOfPerpendicular(c.Center, math).Distance, math)
    ensures c.IntersectCorrected(line, math) == Some([Hit(line.Foot(c.Center).Add(Vector3D.Times(-h, line.Direction))),
                                             Hit(line.Foot(c.Center).Add(Vector3D.Times(h, line.Direction)))])
  {
    TwoHits(line.FootOfPerpendicular(c.Center, math), line.Direction, c.Radius, math, h);
  }

  /** On the coplanar branch: the foot of the centre, its distance d >= 0 and the right angle at the foot. */
  lemma FootFacts(c: Circle3D, line: Line3D, math: MathLib)
    requires Lawful(math) && line.Direction.SquareLength() == 1.0
    requires c.IntersectDefined(line, math) && c.Plane().IsCoplanarLine(line, math)
    ensures line.Direction.Length(math) != 0.0 && Vector3D.Between(line.Origin, c.Center).Length(math) != 0.0
    ensures line.FootOfPerpendicular(c.Center, math).Point == line.Foot(c.Center)
    ensures line.FootOfPerpendicular(c.Center, math).Distance >= 0.0
    ensures Vector3D.Between(line.Foot(c.Center), c.Center).DotProduct(line.Direction) == 0.0
    ensures Vector3D.Between(line.Foot(c.Center), c.Center).SquareLength()
      == line.FootOfPerpendicular(c.Center, math).Distance * line.FootOfPerpendicular(c.Center, math).Distance
  {
    LengthProperties(Vector3D.Between(line.Origin, c.Center), math);
    FootOfPerpendicularSpec(line, c.Center, math);
    ProjectionDistance(line, c.Center, math);
  }

  /** When the foot is at distance r the one point is the foot itself. */
  lemma OneHit(pRes: ProjectionResult<Point3D>, direction: Vector3D, radius: real, math: MathLib)
    requires pRes.Distance == radius
    ensures ChordHits(pRes, direction, radius, math) == Some([Hit(pRes.Point.Add(Vector3D.Times(0.0, direction)))])
  {
    assert pRes.Point.Add(Vector3D.Times(0.0, direction)) == pRes.Point;
  }

  /** When the foot is closer than r the two points are half a chord h either way from it. */
  lemma TwoHits(pRes: ProjectionResult<Point3D>, direction: Vector3D, radius: real, math: MathLib, h: real)
    requires pRes.Distance < radius && h == HalfChord(radius, pRes.Distance, math)
    ensures ChordHits(pRes, direction, radius, math)
         == Some([Hit(pRes.Point.Add(Vector3D.Times(-h, direction))), Hit(pRes.Point.Add(Vector3D.Times(h, direction)))])
  {
    SubtractIsAddNegated(pRes.Point, h, direction);
  }

  lemma SubtractIsAddNegated(p: Point3D, h: real, d: Vector3D)
    ensures p.Subtract(Vector3D.Times(h, d)) == p.Add(Vector3D.Times(-h, d))
  {
  }

  /**
   * The point s along the line from the centre's foot, when d^2 + s^2 = r^2
   * with r >= 0: in the plane, on the line, at distance r from the centre.
   */
  lemma OnCircleAlong(c: Circle3D, line: Line3D, s: real, d: real, math: MathLib)
    requires Lawful(math) && c.Normal != Vector3D.Zero() && c.Plane().NormalVector() == c.Normal
    requires line.Direction.SquareLength() == 1.0 && c.Radius >= 0.0
    requires c.Plane().NormalVector().Length(math) != 0.0 && c.Plane().IsCoplanarLine(line, math)
    requires Vector3D.Between(line.Foot(c.Center), c.Center).DotProduct(line.Direction) == 0.0
    requires Vector3D.Between(line.Foot(c.Center), c.Center).SquareLength() == d * d
    requires d * d + s * s == c.Radius * c.Radius
    ensures c.Plane().IsCoplanar(line.Foot(c.Center).Add(Vector3D.Times(s, line.Direction)))
    ensures line.IsInner(line.Foot(c.Center).Add(Vector3D.Times(s, line.Direction)), math)
    ensures c.Center.DistanceTo(line.Foot(c.Center).Add(Vector3D.Times(s, line.Direction)), math) == c.Radius
  {
    OnLineAlong(c, line, s, math);
    DistanceAlong(c, line, s, d, math);
  }

  lemma OnLineAlong(c: Circle3D, line: Line3D, s: real, math: MathLib)
    requires Lawful(math) && c.Plane().NormalVector() != Vector3D.Zero()
    requires c.Plane().NormalVector().Length(math) != 0.0 && c.Plane().IsCoplanarLine(line, math)
    ensures c.Plane().IsCoplanar(line.Foot(c.Center).Add(Vector3D.Times(s, line.Direction)))
    ensures line.IsInner(line.Foot(c.Center).Add(Vector3D.Times(s, line.Direction)), math)
  {
    var t := line.Direction.DotProduct(Vector3D.Between(line.Origin, c.Center));
    AlongFromOrigin(line.Origin, line.Direction, t, s);
    CoplanarLineSpec(c.Plane(), line, t + s, math);
    PointsAlongAreInner(line, t + s, math);
  }

  lemma DistanceAlong(c: Circle3D, line: Line3D, s: real, d: real, math: MathLib)
    requires line.Direction.SquareLength() == 1.0 && c.Radius >= 0.0
    requires Vector3D.Between(line.Foot(c.Center), c.Center).DotProduct(line.Direction) == 0.0
    requires Vector3D.Between(line.Foot(c.Center), c.Center).SquareLength() == d * d
    requires d * d + s * s == c.Radius * c.Radius && Lawful(math)
    ensures c.Center.DistanceTo(line.Foot(c.Center).Add(Vector3D.Times(s, line.Direction)), math) == c.Radius
  {
    OffsetFromFoot(line.Foot(c.Center), c.Center, line.Direction, s);
    DistanceFromSquare(c.Center, line.Foot(c.Center).Add(Vector3D.Times(s, line.Direction)), c.Radius, math);
  }

  lemma DistanceFromSquare(p: Point3D, q: Point3D, r: real, math: MathLib)
    requires Lawful(math) && p.SquareDistanceTo(q) == r * r && r >= 0.0
    ensures p.DistanceTo(q, math) == r
  {
    SqrtOfSquare(math, r);
  }

  /** Moving s along d from origin + t d lands at origin + (t + s) d. */
  lemma AlongFromOrigin(o: Point3D, d: Vector3D, t: real, s: real)
    ensures o.Add(Vector3D.Times(t, d)).Add(Vector3D.Times(s, d)) == o.Add(Vector3D.Times(t + s, d))
    ensures o.Add(Vector3D.Times(t, d)).Add(Vector3D.Times(s, d)) == o.Add(d.Scaled(t + s))
  {
  }

  /** Pythagoras at the foot: moving s along a unit d perpendicular to foot->c adds s^2 to the squared distance. */
  lemma OffsetFromFoot(f: Point3D, c: Point3D, d: Vector3D, s: real)
    requires d.SquareLength() == 1.0 && Vector3D.Between(f, c).DotProduct(d) == 0.0
    ensures c.SquareDistanceTo(f.Add(Vector3D.Times(s, d))) == Vector3D.Between(f, c).SquareLength() + s * s
  {
    var w := Vector3D.Between(f, c);
    assert c.SquareDistanceTo(f.Add(Vector3D.Times(s, d)))
        == w.SquareLength() - 2.0 * s * w.DotProduct(d) + s * s * d.SquareLength();
  }

  // ---------------------------------------------------------------- as written

  /**
   * The as-written and the corrected intersection agree off the plane, and
   * in it they return the same number of points: both test the same
   * distance, only the point they start from differs.
   */
  lemma AsWrittenSameCount(c: Circle3D, line: Line3D, math: MathLib)
    requires c.IntersectDefined(line, math)
    ensures !c.Plane().IsCoplanarLine(line, math) ==> c.Intersect(line, math) == c.IntersectCorrected(line, math)
    ensures c.Intersect(line, math).Some? <==> c.IntersectCorrected(line, math).Some?
    ensures c.Intersect(line, math).Some? ==> |c.Intersect(line, math).value| == |c.IntersectCorrected(line, math).value|
  {
  }

  /**
   * As written, when the centre is off a line lying in the circle's plane,
   * none of the points returned is on the line: each is the point
   * `Projection` gives for the centre moved along the line, and that point
   * is as far from the line as the centre itself.
   */
  lemma AsWrittenHitsOffLine(c: Circle3D, line: Line3D, math: MathLib)
    requires c.IntersectDefined(line, math) && c.Plane().IsCoplanarLine(line, math)
    requires !line.IsInner(c.Center, math)
    requires c.Intersect(line, math).Some?
    ensures forall h <- c.Intersect(line, math).value :: !line.IsInner(h.Point, math)
  {
    var pRes := line.Projection(c.Center, math);
    ProjectionStaysOffLine(line, c.Center, math);
    if pRes.Distance == c.Radius {
      OneHit(pRes, line.Direction, c.Radius, math);
      AlongKeepsOffLine(line, pRes.Point, 0.0, math);
    } else {
      var h := HalfChord(c.Radius, pRes.Distance, math);
      TwoHits(pRes, line.Direction, c.Radius, math, h);
      AlongKeepsOffLine(line, pRes.Point, -h, math);
      AlongKeepsOffLine(line, pRes.Point, h, math);
    }
  }

  /** Moving a point along the line's direction keeps it on or off the line. */
  lemma AlongKeepsOffLine(l: Line3D, q: Point3D, s: real, math: MathLib)
    ensures l.IsInner(q.Add(Vector3D.Times(s, l.Direction)), math) <==> l.IsInner(q, math)
  {
    assert Vector3D.Between(l.Origin, q.Add(Vector3D.Times(s, l.Direction)))
        == Vector3D.Between(l.Origin, q).Minus(l.Direction.Scaled(-s));
    CrossAlongDirection(Vector3D.Between(l.Origin, q), l.Direction, -s);
  }
}
