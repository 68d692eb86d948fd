/**
 * Line3D: the unbounded space line through an origin along a direction that
 * the constructor normalises, with the membership test and the projection of
 * a point.
 */
module Lines3D {
  import opened RealMath
  import opened Results
  import opened Primitives3D

  /** The line through `Origin` along `Direction`; `Create` stores the direction normalised. */
  datatype Line3D = Line3D(Origin: Point3D, Direction: Vector3D)
  {
    /** On the line when the cross product of origin->point with the direction is shorter than the tolerance. */
    predicate IsInner(point: Point3D, math: MathLib)
    {
      Vector3D.Between(Origin, point).CrossProduct(Direction).Length(math) < Tolerance
    }

    /**
     * As written: d = |origin->point| sin(angle between the direction and
     * origin->point), and the point moved back by d along the line's own
     * direction. The source divides by zero when the point is the origin.
     */
    function Projection(point: Point3D, math: MathLib): ProjectionResult<Point3D>
      requires Direction.Length(math) != 0.0 && Vector3D.Between(Origin, point).Length(math) != 0.0
    {
      var vector := Vector3D.Between(Origin, point);
      var angle := Direction.AngleTo(vector, math);
      var d := vector.Length(math) * math.Sin(angle);
      ProjectionResult(point.Subtract(Vector3D.Times(d, Direction)), 0.0, d)
    }

    /**
     * The foot of the perpendicular: the origin moved along the direction by
     * the component of origin->point on it, with the same distance as `Projection`.
     */
    function FootOfPerpendicular(point: Point3D, math: MathLib): ProjectionResult<Point3D>
      requires Direction.Length(math) != 0.0 && Vector3D.Between(Origin, point).Length(math) != 0.0
    {
      ProjectionResult(Foot(point), 0.0, Projection(point, math).Distance)
    }

    /** The origin moved along the direction by the component of origin->point on it. */
    function Foot(point: Point3D): Point3D
    {
      Origin.Add(Vector3D.Times(Direction.DotProduct(Vector3D.Between(Origin, point)), Direction))
    }
  }

  /** The constructor: the direction is stored normalised; the source divides by zero for a zero direction. */
  function Create(origin: Point3D, direction: Vector3D, math: MathLib): Line3D
    requires direction.Length(math) != 0.0
  {
    Line3D(origin, direction.Normalize(math))
  }

  /** The constructor keeps the origin and stores a unit direction that the original's length scales back. */
  lemma CreateNormalises(origin: Point3D, direction: Vector3D, math: MathLib)
    requires Lawful(math) && direction != Vector3D.Zero()
    ensures direction.Length(math) != 0.0
    ensures Create(origin, direction, math).Origin == origin
    ensures Create(origin, direction, math).Direction.SquareLength() == 1.0
    ensures Create(origin, direction, math).Direction.Scaled(direction.Length(math)) == direction
  {
    NormalizeIsUnit(direction, math);
  }

  /** Every point origin + t direction is on the line, the origin among them. */
  lemma PointsAlongAreInner(l: Line3D, t: real, math: MathLib)
    requires Lawful(math)
    ensures l.IsInner(l.Origin, math)
    ensures l.IsInner(l.Origin.Add(l.Direction.Scaled(t)), math)
  {
    var v := Vector3D.Between(l.Origin, l.Origin.Add(l.Direction.Scaled(t)));
    assert v == l.Direction.Scaled(t);
    assert v.CrossProduct(l.Direction) == Vector3D.Zero();
    assert Vector3D.Between(l.Origin, l.Origin).CrossProduct(l.Direction) == Vector3D.Zero();
    ZeroLength(math);
  }

  /**
   * For a unit direction, a point is on the line exactly when its squared
   * distance from the line, |origin->point|^2 - (origin->point . direction)^2,
   * is below the square of the tolerance.
   */
  lemma InnerIffNearLine(l: Line3D, p: Point3D, math: MathLib)
    requires Lawful(math) && l.Direction.SquareLength() == 1.0
    ensures l.IsInner(p, math) <==>
      Vector3D.Between(l.Origin, p).SquareLength() - Square(Vector3D.Between(l.Origin, p).DotProduct(l.Direction)) < Tolerance * Tolerance
  {
    var v := Vector3D.Between(l.Origin, p);
    var c := v.CrossProduct(l.Direction);
    CrossSquare(v, l.Direction);
    SumOfSquares3(c.X, c.Y, c.Z);
    SqrtBelow(math, c.SquareLength(), Tolerance);
  }

  function Square(x: real): real { x * x }

  /** Below a positive bound exactly when the square is below its square. */
  lemma SqrtBelow(math: MathLib, x: real, bound: real)
    requires Lawful(math) && 0.0 <= x && 0.0 < bound
    ensures math.Sqrt(x) < bound <==> x < bound * bound
  {
    SqrtOfSquare(math, bound);
    if x < bound * bound {
      SqrtMonotonic(math, x, bound * bound);
    } else if x > bound * bound {
      SqrtMonotonic(math, bound * bound, x);
    }
  }

  /**
   * For a unit direction, the distance `Projection` reports is the distance
   * of the point from the line: it is not negative and its square is the
   * squared cross product of origin->point with the direction.
   */
  lemma ProjectionDistance(l: Line3D, p: Point3D, math: MathLib)
    requires Lawful(math) && l.Direction.SquareLength() == 1.0 && p != l.Origin
    ensures l.Direction.Length(math) == 1.0 && Vector3D.Between(l.Origin, p).Length(math) > 0.0
    ensures l.Projection(p, math).Distance >= 0.0
    ensures l.Projection(p, math).Distance * l.Projection(p, math).Distance
      == Vector3D.Between(l.Origin, p).CrossProduct(l.Direction).SquareLength()
  {
    UnitLengths(l, p, math);
    SineOfAngle(l.Direction, Vector3D.Between(l.Origin, p), math);
    DistanceFromSine(l, p, math);
  }

  lemma DistanceFromSine(l: Line3D, p: Point3D, math: MathLib)
    requires l.Direction.SquareLength() == 1.0 && l.Direction.Length(math) == 1.0
    requires Vector3D.Between(l.Origin, p).Length(math) > 0.0
    requires Vector3D.Between(l.Origin, p).Length(math) * Vector3D.Between(l.Origin, p).Length(math)
      == Vector3D.Between(l.Origin, p).SquareLength()
    requires Vector3D.Between(l.Origin, p).CrossProduct(l.Direction).SquareLength() >= 0.0
    requires l.Direction.Cosine(Vector3D.Between(l.Origin, p), math) >= 1.0 || l.Direction.Cosine(Vector3D.Between(l.Origin, p), math) <= -1.0 ==>
      math.Sin(l.Direction.AngleTo(Vector3D.Between(l.Origin, p), math)) == 0.0
    requires -1.0 < l.Direction.Cosine(Vector3D.Between(l.Origin, p), math) < 1.0 ==>
      math.Sin(l.Direction.AngleTo(Vector3D.Between(l.Origin, p), math)) >= 0.0 &&
      math.Sin(l.Direction.AngleTo(Vector3D.Between(l.Origin, p), math)) * math.Sin(l.Direction.AngleTo(Vector3D.Between(l.Origin, p), math))
        == 1.0 - l.Direction.Cosine(Vector3D.Between(l.Origin, p), math) * l.Direction.Cosine(Vector3D.Between(l.Origin, p), math)
    ensures l.Projection(p, math).Distance >= 0.0
    ensures l.Projection(p, math).Distance * l.Projection(p, math).Distance
      == Vector3D.Between(l.Origin, p).CrossProduct(l.Direction).SquareLength()
  {
    CosineOfUnit(l.Direction, Vector3D.Between(l.Origin, p), math);
    CrossSquareUnit(Vector3D.Between(l.Origin, p), l.Direction);
    DistanceAlgebra(Vector3D.Between(l.Origin, p).Length(math), l.Direction.DotProduct(Vector3D.Between(l.Origin, p)),
      l.Direction.Cosine(Vector3D.Between(l.Origin, p), math),
      math.Sin(l.Direction.AngleTo(Vector3D.Between(l.Origin, p), math)),
      Vector3D.Between(l.Origin, p).CrossProduct(l.Direction).SquareLength());
  }

  lemma UnitLengths(l: Line3D, p: Point3D, math: MathLib)
    requires Lawful(math) && l.Direction.SquareLength() == 1.0 && p != l.Origin
    ensures l.Direction.Length(math) == 1.0 && Vector3D.Between(l.Origin, p).Length(math) > 0.0
    ensures Vector3D.Between(l.Origin, p).Length(math) * Vector3D.Between(l.Origin, p).Length(math)
      == Vector3D.Between(l.Origin, p).SquareLength()
    ensures Vector3D.Between(l.Origin, p).CrossProduct(l.Direction).SquareLength() >= 0.0
  {
    SqrtOne(math);
    assert Vector3D.Between(l.Origin, p) != Vector3D.Zero();
    LengthProperties(Vector3D.Between(l.Origin, p), math);
    var c := Vector3D.Between(l.Origin, p).CrossProduct(l.Direction);
    SumOfSquares3(c.X, c.Y, c.Z);
  }

  /** Against a unit vector the cosine times the other length is the dot product. */
  lemma CosineOfUnit(u: Vector3D, v: Vector3D, math: MathLib)
    requires u.Length(math) == 1.0 && v.Length(math) > 0.0
    ensures u.Cosine(v, math) * v.Length(math) == u.DotProduct(v)
  {
    DivMul(u.DotProduct(v), v.Length(math));
  }

  /** The sine of the clamped angle: zero at the clamps, otherwise non-negative with square 1 - cos^2. */
  lemma SineOfAngle(u: Vector3D, v: Vector3D, math: MathLib)
    requires Lawful(math) && u.Length(math) != 0.0 && v.Length(math) != 0.0
    ensures u.Cosine(v, math) >= 1.0 || u.Cosine(v, math) <= -1.0 ==> math.Sin(u.AngleTo(v, math)) == 0.0
    ensures -1.0 < u.Cosine(v, math) < 1.0 ==>
      math.Sin(u.AngleTo(v, math)) >= 0.0 &&
      math.Sin(u.AngleTo(v, math)) * math.Sin(u.AngleTo(v, math)) == 1.0 - u.Cosine(v, math) * u.Cosine(v, math)
  {
    var temp := u.Cosine(v, math);
    if -1.0 < temp < 1.0 {
      assert math.Cos(math.Acos(temp)) == temp;
      assert math.Sin(math.Acos(temp)) * math.Sin(math.Acos(temp)) + math.Cos(math.Acos(temp)) * math.Cos(math.Acos(temp)) == 1.0;
    }
  }

  /** Lagrange's identity against a unit vector. */
  lemma CrossSquareUnit(v: Vector3D, u: Vector3D)
    requires u.SquareLength() == 1.0
    ensures v.CrossProduct(u).SquareLength() == v.SquareLength() - u.DotProduct(v) * u.DotProduct(v)
  {
    CrossSquare(v, u);
    assert v.DotProduct(u) == u.DotProduct(v);
  }

  /**
   * d = len s, with the cosine `temp` = dot / len and s the sine of the angle
   * (zero where the cosine is clamped), is the square root of
   * len^2 - dot^2.
   */
  lemma DistanceAlgebra(len: real, dot: real, temp: real, s: real, cross: real)
    requires len > 0.0 && temp * len == dot && cross >= 0.0 && cross == len * len - dot * dot
    requires temp >= 1.0 || temp <= -1.0 ==> s == 0.0
    requires -1.0 < temp < 1.0 ==> s >= 0.0 && s * s == 1.0 - temp * temp
    ensures len * s >= 0.0 && (len * s) * (len * s) == cross
  {
    if temp >= 1.0 {
      MulMonotonic(temp, 1.0, len);
      SquareStrictlyIncreasingOrEqual(len, dot);
    } else if temp <= -1.0 {
      MulMonotonic(-temp, 1.0, len);
      SquareStrictlyIncreasingOrEqual(len, -dot);
    } else {
      MulNonNegative(len, s);
      assert (len * s) * (len * s) == len * len * (s * s);
      assert len * len * (1.0 - temp * temp) == len * len - (temp * len) * (temp * len);
    }
  }

  lemma MulMonotonic(a: real, b: real, k: real)
    requires a >= b && k > 0.0
    ensures a * k >= b * k
  {
    MulNonNegative(a - b, k);
  }

  lemma SquareStrictlyIncreasingOrEqual(s: real, t: real)
    requires 0.0 <= s <= t
    ensures s * s <= t * t
  {
    if s < t {
      SquareStrictlyIncreasing(s, t);
    }
  }

  /**
   * The foot of the perpendicular, for a unit direction: it is on the line,
   * the rest of the way to the point is perpendicular to the direction, and
   * its length is the distance `Projection` reports.
   */
  lemma FootOfPerpendicularSpec(l: Line3D, p: Point3D, math: MathLib)
    requires Lawful(math) && l.Direction.SquareLength() == 1.0 && p != l.Origin
    ensures l.Direction.Length(math) != 0.0 && Vector3D.Between(l.Origin, p).Length(math) != 0.0
    ensures l.IsInner(l.FootOfPerpendicular(p, math).Point, math)
    ensures Vector3D.Between(l.FootOfPerpendicular(p, math).Point, p).DotProduct(l.Direction) == 0.0
    ensures Vector3D.Between(l.FootOfPerpendicular(p, math).Point, p).SquareLength()
      == l.FootOfPerpendicular(p, math).Distance * l.FootOfPerpendicular(p, math).Distance
  {
    FootDistance(l, p, math);
    FootOnLine(l, p, math);
    FootAcross(l, p);
  }

  lemma FootAcross(l: Line3D, p: Point3D)
    requires l.Direction.SquareLength() == 1.0
    ensures Vector3D.Between(l.Foot(p), p).DotProduct(l.Direction) == 0.0
  {
    FootOffset(l, p);
  }

  lemma FootDistance(l: Line3D, p: Point3D, math: MathLib)
    requires Lawful(math) && l.Direction.SquareLength() == 1.0 && p != l.Origin
    ensures l.Direction.Length(math) != 0.0 && Vector3D.Between(l.Origin, p).Length(math) != 0.0
    ensures Vector3D.Between(l.FootOfPerpendicular(p, math).Point, p).SquareLength()
      == l.FootOfPerpendicular(p, math).Distance * l.FootOfPerpendicular(p, math).Distance
  {
    UnitLengths(l, p, math);
    FootOffset(l, p);
    ProjectionDistance(l, p, math);
    CrossSquareUnit(Vector3D.Between(l.Origin, p), l.Direction);
  }

  lemma FootOnLine(l: Line3D, p: Point3D, math: MathLib)
    requires Lawful(math)
    ensures l.IsInner(l.Foot(p), math)
  {
    var t := l.Direction.DotProduct(Vector3D.Between(l.Origin, p));
    assert l.Foot(p) == l.Origin.Add(l.Direction.Scaled(t));
    PointsAlongAreInner(l, t, math);
  }

  lemma FootOffset(l: Line3D, p: Point3D)
    requires l.Direction.SquareLength() == 1.0
    ensures Vector3D.Between(l.Foot(p), p).DotProduct(l.Direction) == 0.0
    ensures Vector3D.Between(l.Foot(p), p).SquareLength()
      == Vector3D.Between(l.Origin, p).SquareLength()
       - l.Direction.DotProduct(Vector3D.Between(l.Origin, p)) * l.Direction.DotProduct(Vector3D.Between(l.Origin, p))
  {
    FootRest(l, p);
    PerpendicularPart(Vector3D.Between(l.Origin, p), l.Direction, l.Direction.DotProduct(Vector3D.Between(l.Origin, p)));
  }

  /** From the foot to the point is origin->point less its component along the direction. */
  lemma FootRest(l: Line3D, p: Point3D)
    ensures Vector3D.Between(l.Foot(p), p)
      == Vector3D.Between(l.Origin, p).Minus(l.Direction.Scaled(l.Direction.DotProduct(Vector3D.Between(l.Origin, p))))
  {
  }

  /** Removing from v its component t along a unit d leaves a part perpendicular to d, of squared length |v|^2 - t^2. */
  lemma PerpendicularPart(v: Vector3D, d: Vector3D, t: real)
    requires d.SquareLength() == 1.0 && t == d.DotProduct(v)
    ensures v.Minus(d.Scaled(t)).DotProduct(d) == 0.0
    ensures v.Minus(d.Scaled(t)).SquareLength() == v.SquareLength() - t * t
  {
    assert v.Minus(d.Scaled(t)).DotProduct(d) == d.DotProduct(v) - t * d.SquareLength();
    assert v.Minus(d.Scaled(t)).SquareLength() == v.SquareLength() - 2.0 * t * d.DotProduct(v) + t * t * d.SquareLength();
  }

  /**
   * As written, `Projection` moves the point along the line instead of
   * towards it, so its point is exactly as far from the line as the point
   * itself: it is on the line only when the point already was.
   */
  lemma ProjectionStaysOffLine(l: Line3D, p: Point3D, math: MathLib)
    requires l.Direction.Length(math) != 0.0 && Vector3D.Between(l.Origin, p).Length(math) != 0.0
    ensures Vector3D.Between(l.Origin, l.Projection(p, math).Point).CrossProduct(l.Direction)
      == Vector3D.Between(l.Origin, p).CrossProduct(l.Direction)
    ensures l.IsInner(l.Projection(p, math).Point, math) <==> l.IsInner(p, math)
  {
    assert Vector3D.Between(l.Origin, l.Projection(p, math).Point)
      == Vector3D.Between(l.Origin, p).Minus(l.Direction.Scaled(l.Projection(p, math).Distance));
    CrossAlongDirection(Vector3D.Between(l.Origin, p), l.Direction, l.Projection(p, math).Distance);
  }

  /** Moving along d does not change the cross product with d. */
  lemma CrossAlongDirection(v: Vector3D, d: Vector3D, t: real)
    ensures v.Minus(d.Scaled(t)).CrossProduct(d) == v.CrossProduct(d)
  {
    assert (v.Y - t * d.Y) * d.Z - (v.Z - t * d.Z) * d.Y == v.Y * d.Z - v.Z * d.Y;
    assert (v.Z - t * d.Z) * d.X - (v.X - t * d.X) * d.Z == v.Z * d.X - v.X * d.Z;
    assert (v.X - t * d.X) * d.Y - (v.Y - t * d.Y) * d.X == v.X * d.Y - v.Y * d.X;
  }

  /** The x-axis as a line. */
  function XAxis(): Line3D { Line3D(Point3D.Zero(), Vector3D(1.0, 0.0, 0.0)) }

  /**
   * (0, 1, 0) is not on the x-axis, so by `ProjectionStaysOffLine` the point
   * `Projection` returns for it is not on the x-axis either.
   */
  lemma OffXAxis(math: MathLib)
    requires math.Sqrt(1.0) == 1.0
    ensures !XAxis().IsInner(Point3D(0.0, 1.0, 0.0), math)
  {
    var v := Vector3D.Between(XAxis().Origin, Point3D(0.0, 1.0, 0.0));
    assert v == Vector3D(0.0, 1.0, 0.0);
    assert v.CrossProduct(XAxis().Direction) == Vector3D(0.0, 0.0, -1.0);
    assert Vector3D(0.0, 0.0, -1.0).SquareLength() == 1.0;
  }
}
