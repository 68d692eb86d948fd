/**
 * Line2D: the unbounded plane line A x + B y = C, kept as its three
 * coefficients, with the constructors from a slope, a point and a direction
 * or two points, and the point, distance, projection and intersection queries.
 */
module Lines2D {
  import opened RealMath
  import opened Results
  import opened Primitives2D

  /** The line A x + B y = C. */
  datatype Line2D = Line2D(A: real, B: real, C: real)
  {
    /** Exact membership: the point satisfies the equation. */
    predicate IsInner(point: Point2D)
    {
      C == A * point.X + B * point.Y
    }

    /** Exact parallelism of the normals (A, B). */
    predicate IsParallel(other: Line2D)
    {
      A * other.B == other.A * B
    }

    /** The point of the line with abscissa `x`; none for a vertical line (B == 0). */
    function GetPointByX(x: real): Option<Point2D>
    {
      if B != 0.0 then Some(Point2D(x, (C - A * x) / B)) else None
    }

    /** The point of the line with ordinate `y`; none for a horizontal line (A == 0). */
    function GetPointByY(y: real): Option<Point2D>
    {
      if A != 0.0 then Some(Point2D((C - B * y) / A, y)) else None
    }

    /** The unit direction (-B, A); the source divides by zero for A == B == 0. */
    function Direction(math: MathLib): Vector2D
      requires Vector2D(-B, A).Length(math) != 0.0
    {
      Vector2D(-B, A).Normalize(math)
    }

    /** The length of the normal (A, B). */
    function NormalLength(math: MathLib): real
    {
      math.Sqrt(A * A + B * B)
    }

    /**
     * Signed distance: the residual A x + B y - C over the length of the
     * normal, positive on the right of the direction of travel.
     */
    function DistanceTo(point: Point2D, math: MathLib): real
      requires NormalLength(math) != 0.0
    {
      (A * point.X + B * point.Y - C) / NormalLength(math)
    }

    /** The divisions `Projection` performs on the branch it takes are by non-zero numbers. */
    predicate ProjectionDefined(math: MathLib)
    {
      if Abs(A) < Tolerance then B != 0.0
      else if Abs(B) < Tolerance then A != 0.0
      else NormalLength(math) != 0.0 && Vector2D(-B, A).Length(math) != 0.0
    }

    /**
     * The projection of a point: for a nearly horizontal line (|A| below the
     * tolerance) straight up or down to y = C / B, for a nearly vertical one
     * sideways to x = C / A, and otherwise from the line's point above or
     * below `point` along the direction by A d / B, with d the signed distance.
     */
    function Projection(point: Point2D, math: MathLib): ProjectionResult<Point2D>
      requires ProjectionDefined(math)
    {
      if Abs(A) < Tolerance then
        ProjectionResult(Point2D(point.X, C / B), 0.0, point.Y - C / B)
      else if Abs(B) < Tolerance then
        ProjectionResult(Point2D(C / A, point.Y), 0.0, point.X - C / A)
      else
        SlantProjection(point, math)
    }

    /**
     * The general branch of `Projection`: from the line's point above or
     * below `point`, along the direction by A d / B, with d the signed distance.
     */
    function SlantProjection(point: Point2D, math: MathLib): ProjectionResult<Point2D>
      requires B != 0.0 && NormalLength(math) != 0.0 && Vector2D(-B, A).Length(math) != 0.0
    {
      var pA := GetPointByX(point.X).value;
      var d := DistanceTo(point, math);
      ProjectionResult(pA.Add(Vector2D.Times(SlantScale(point, math), Direction(math))), 0.0, d)
    }

    /** How far `SlantProjection` moves along the direction: A d / B. */
    function SlantScale(point: Point2D, math: MathLib): real
      requires B != 0.0 && NormalLength(math) != 0.0
    {
      A * DistanceTo(point, math) / B
    }

    /** The divisor the source's `Intersect` uses for the ordinate: the other line's B when |B| is below the tolerance. */
    function IntersectDivisor(other: Line2D): real
    {
      if Abs(B) < Tolerance then other.B else B
    }

    /**
     * The crossing point by Cramer's rule, none for parallel lines. The
     * ordinate comes from the other line's equation when |B| is below the
     * tolerance and the other line is not vertical, and from this line's
     * equation otherwise.
     */
    function Intersect(other: Line2D): Option<Point2D>
    {
      if IsParallel(other) then None
      else
        var x := (other.C * B - other.B * C) / (other.A * B - other.B * A);
        var y := if Abs(B) < Tolerance && other.B != 0.0 then (other.C - other.A * x) / other.B else (C - A * x) / B;
        Some(Point2D(x, y))
    }
  }

  /** y = k x + b. */
  function FromSlope(k: real, b: real): Line2D
  {
    Line2D(k, -1.0, -b)
  }

  /** y - v = k (x - u) through (u, v). */
  function FromSlopeAndPoint(k: real, point: Point2D): Line2D
  {
    Line2D(k, -1.0, k * point.X - point.Y)
  }

  /** The line through `point` along `dir`. */
  function FromPointAndDirection(point: Point2D, dir: Vector2D): Line2D
  {
    Line2D(dir.Y, -dir.X, dir.Y * point.X - dir.X * point.Y)
  }

  /**
   * The line through two points: the vertical through their mean abscissa when
   * their abscissas differ by less than the tolerance, else the horizontal
   * through their mean ordinate when their ordinates do, else x / dx - y / dy
   * = xA / dx - yA / dy.
   */
  function FromPoints(pointA: Point2D, pointB: Point2D): Line2D
  {
    if Abs(pointA.X - pointB.X) < Tolerance then
      Line2D(1.0, 0.0, 0.5 * (pointA.X + pointB.X))
    else if Abs(pointA.Y - pointB.Y) < Tolerance then
      Line2D(0.0, 1.0, 0.5 * (pointA.Y + pointB.Y))
    else
      Line2D(1.0 / (pointB.X - pointA.X), -1.0 / (pointB.Y - pointA.Y),
             (pointA.X / (pointB.X - pointA.X)) - (pointA.Y / (pointB.Y - pointA.Y)))
  }

  // ---------------------------------------------------------------- constructors

  /** The slope-intercept line holds exactly the points with y = k x + b. */
  lemma SlopeLine(k: real, b: real, p: Point2D)
    ensures FromSlope(k, b).IsInner(p) <==> p.Y == k * p.X + b
  {
  }

  /** The point-slope line passes through its point and holds exactly the points at slope k from it. */
  lemma PointSlopeLine(k: real, point: Point2D, p: Point2D)
    ensures FromSlopeAndPoint(k, point).IsInner(point)
    ensures FromSlopeAndPoint(k, point).IsInner(p) <==> p.Y - point.Y == k * (p.X - point.X)
  {
  }

  /**
   * The point-direction line passes through every point + t dir, and holds
   * exactly the points whose offset from `point` is parallel to `dir`.
   */
  lemma DirectionLine(point: Point2D, dir: Vector2D, t: real, p: Point2D)
    ensures FromPointAndDirection(point, dir).IsInner(point.Add(dir.Scaled(t)))
    ensures FromPointAndDirection(point, dir).IsInner(p) <==> Vector2D.Between(point, p).Cross(dir) == 0.0
  {
    assert dir.Y * (point.X + t * dir.X) - dir.X * (point.Y + t * dir.Y) == dir.Y * point.X - dir.X * point.Y;
  }

  /**
   * The two-point line keeps both points within the tolerance of its
   * equation, and through them exactly when neither coordinate difference is
   * below the tolerance.
   */
  lemma TwoPointLine(pointA: Point2D, pointB: Point2D)
    ensures var l := FromPoints(pointA, pointB);
      Abs(l.A * pointA.X + l.B * pointA.Y - l.C) < Tolerance &&
      Abs(l.A * pointB.X + l.B * pointB.Y - l.C) < Tolerance
    ensures Abs(pointA.X - pointB.X) >= Tolerance && Abs(pointA.Y - pointB.Y) >= Tolerance ==>
      FromPoints(pointA, pointB).IsInner(pointA) && FromPoints(pointA, pointB).IsInner(pointB)
  {
    if Abs(pointA.X - pointB.X) >= Tolerance && Abs(pointA.Y - pointB.Y) >= Tolerance {
      ThroughTwoPoints(pointA.X, pointA.Y, pointB.X, pointB.Y);
    }
  }

  lemma ThroughTwoPoints(xa: real, ya: real, xb: real, yb: real)
    requires xb - xa != 0.0 && yb - ya != 0.0
    ensures (1.0 / (xb - xa)) * xa + (-1.0 / (yb - ya)) * ya == xa / (xb - xa) - ya / (yb - ya)
    ensures (1.0 / (xb - xa)) * xb + (-1.0 / (yb - ya)) * yb == xa / (xb - xa) - ya / (yb - ya)
  {
    DivScale(xa, xb - xa);
    DivScale(xb, xb - xa);
    DivScale(ya, yb - ya);
    DivScale(yb, yb - ya);
    DivScale(-1.0, yb - ya);
    DivMul(1.0, xb - xa);
    DivMul(1.0, yb - ya);
    assert (1.0 / (xb - xa)) * xb - (1.0 / (xb - xa)) * xa == (1.0 / (xb - xa)) * (xb - xa);
    assert (1.0 / (yb - ya)) * yb - (1.0 / (yb - ya)) * ya == (1.0 / (yb - ya)) * (yb - ya);
  }

  // ---------------------------------------------------------------- points by coordinate

  /** GetPointByX is defined exactly off vertical lines, and gives the line's point with that abscissa. */
  lemma GetPointByXSpec(l: Line2D, x: real)
    ensures l.GetPointByX(x).None? <==> l.B == 0.0
    ensures l.GetPointByX(x).Some? ==> l.GetPointByX(x).value.X == x && l.IsInner(l.GetPointByX(x).value)
  {
    if l.B != 0.0 {
      DivMul(l.C - l.A * x, l.B);
    }
  }

  /** GetPointByY is defined exactly off horizontal lines, and gives the line's point with that ordinate. */
  lemma GetPointByYSpec(l: Line2D, y: real)
    ensures l.GetPointByY(y).None? <==> l.A == 0.0
    ensures l.GetPointByY(y).Some? ==> l.GetPointByY(y).value.Y == y && l.IsInner(l.GetPointByY(y).value)
  {
    if l.A != 0.0 {
      DivMul(l.C - l.B * y, l.A);
    }
  }

  // ---------------------------------------------------------------- parallel lines and intersection

  /** Parallelism is reflexive and symmetric. */
  lemma ParallelRelation(l: Line2D, m: Line2D)
    ensures l.IsParallel(l)
    ensures l.IsParallel(m) <==> m.IsParallel(l)
  {
  }

  /**
   * Intersect is none exactly for parallel lines; otherwise its point lies on
   * both lines and is the only such point.
   */
  lemma IntersectSpec(l: Line2D, m: Line2D, q: Point2D)
    ensures l.Intersect(m).None? <==> l.IsParallel(m)
    ensures l.Intersect(m).Some? ==> l.IsInner(l.Intersect(m).value) && m.IsInner(l.Intersect(m).value)
    ensures l.Intersect(m).Some? && l.IsInner(q) && m.IsInner(q) ==> q == l.Intersect(m).value
  {
    if !l.IsParallel(m) {
      IntersectOnBoth(l, m);
      if l.IsInner(q) && m.IsInner(q) {
        IntersectUnique(l, m, q);
      }
    }
  }

  lemma IntersectOnBoth(l: Line2D, m: Line2D)
    requires !l.IsParallel(m)
    ensures l.IsInner(l.Intersect(m).value) && m.IsInner(l.Intersect(m).value)
  {
    var x := l.Intersect(m).value.X;
    var y := l.Intersect(m).value.Y;
    DivMul(m.C * l.B - m.B * l.C, m.A * l.B - m.B * l.A);
    if Abs(l.B) < Tolerance && m.B != 0.0 {
      DivMul(m.C - m.A * x, m.B);
      CramerRow(m.A, m.B, m.C, l.A, l.B, l.C, x, y);
    } else {
      DivMul(l.C - l.A * x, l.B);
      CramerRow(l.A, l.B, l.C, m.A, m.B, m.C, x, y);
    }
  }

  lemma IntersectUnique(l: Line2D, m: Line2D, q: Point2D)
    requires !l.IsParallel(m) && l.IsInner(q) && m.IsInner(q)
    ensures q == l.Intersect(m).value
  {
    IntersectOnBoth(l, m);
    var r := l.Intersect(m).value;
    CommonPointUnique(l.A, l.B, l.C, m.A, m.B, m.C, q.X, q.Y, r.X, r.Y);
  }

  /** Two common points of two non-parallel lines coincide. */
  lemma CommonPointUnique(a1: real, b1: real, c1: real, a2: real, b2: real, c2: real, x: real, y: real, x': real, y': real)
    requires a1 * b2 != a2 * b1
    requires a1 * x + b1 * y == c1 && a2 * x + b2 * y == c2
    requires a1 * x' + b1 * y' == c1 && a2 * x' + b2 * y' == c2
    ensures x == x' && y == y'
  {
    CramerUnique(a1, b1, c1, a2, b2, c2, x, y);
    CramerUnique(a1, b1, c1, a2, b2, c2, x', y');
    assert (a2 * b1 - b2 * a1) * (x - x') == 0.0;
    ZeroFactor(a2 * b1 - b2 * a1, x - x');
    CramerOrdinate(a1, b1, c1, a2, b2, c2, x, y, y');
  }

  /**
   * Cramer's rule for a1 x + b1 y = c1, a2 x + b2 y = c2: the abscissa from the
   * determinant and the ordinate from the first equation satisfy both.
   */
  lemma CramerRow(a1: real, b1: real, c1: real, a2: real, b2: real, c2: real, x: real, y: real)
    requires b1 != 0.0
    requires x * (a2 * b1 - b2 * a1) == c2 * b1 - b2 * c1 || x * (a1 * b2 - b1 * a2) == c1 * b2 - b1 * c2
    requires b1 * y == c1 - a1 * x
    ensures a1 * x + b1 * y == c1 && a2 * x + b2 * y == c2
  {
    assert b1 * (a2 * x + b2 * y) == b1 * c2 by {
      assert b1 * (a2 * x + b2 * y) == x * (a2 * b1 - b2 * a1) + b2 * c1;
    }
  }

  /** A common point of two non-parallel lines has the Cramer abscissa. */
  lemma CramerUnique(a1: real, b1: real, c1: real, a2: real, b2: real, c2: real, x: real, y: real)
    requires a1 * x + b1 * y == c1 && a2 * x + b2 * y == c2
    ensures x * (a2 * b1 - b2 * a1) == c2 * b1 - b2 * c1
  {
    assert b1 * (a2 * x + b2 * y) - b2 * (a1 * x + b1 * y) == x * (a2 * b1 - b2 * a1);
  }

  /** Two points of two non-parallel lines with the same abscissa have the same ordinate. */
  lemma CramerOrdinate(a1: real, b1: real, c1: real, a2: real, b2: real, c2: real, x: real, y: real, y': real)
    requires a1 * b2 != a2 * b1
    requires a1 * x + b1 * y == c1 && a2 * x + b2 * y == c2
    requires a1 * x + b1 * y' == c1 && a2 * x + b2 * y' == c2
    ensures y == y'
  {
    assert b1 * (y - y') == 0.0 && b2 * (y - y') == 0.0;
    if b1 != 0.0 {
      ZeroFactor(b1, y - y');
    } else {
      ZeroFactor(b2, y - y');
    }
  }

  /**
   * As written, the source takes the ordinate from the other line whenever |B|
   * is below the tolerance, even when the other line is vertical: for
   * 1 x + 1e-10 y = 0 against x = 1 it divides by zero.
   */
  lemma IntersectDividesByZero()
    ensures !Line2D(1.0, 0.0000000001, 0.0).IsParallel(Line2D(1.0, 0.0, 1.0))
    ensures Line2D(1.0, 0.0000000001, 0.0).IntersectDivisor(Line2D(1.0, 0.0, 1.0)) == 0.0
  {
  }

  // ---------------------------------------------------------------- distance

  /**
   * The signed distance times the normal length is the residual; it is zero
   * exactly on the line and has the residual's sign off it.
   */
  lemma DistanceSign(l: Line2D, p: Point2D, math: MathLib)
    requires Lawful(math) && (l.A != 0.0 || l.B != 0.0)
    ensures l.NormalLength(math) > 0.0
    ensures l.DistanceTo(p, math) * l.NormalLength(math) == l.A * p.X + l.B * p.Y - l.C
    ensures l.DistanceTo(p, math) == 0.0 <==> l.IsInner(p)
    ensures l.DistanceTo(p, math) > 0.0 <==> l.A * p.X + l.B * p.Y - l.C > 0.0
  {
    SumOfSquares2(l.A, l.B);
    SqrtPositive(math, l.A * l.A + l.B * l.B);
    var r := l.A * p.X + l.B * p.Y - l.C;
    DivMul(r, l.NormalLength(math));
    if r > 0.0 {
      DivPositive(r, l.NormalLength(math));
    } else if r < 0.0 {
      DivPositive(-r, l.NormalLength(math));
      assert (-r) / l.NormalLength(math) == -(r / l.NormalLength(math));
    }
  }

  /**
   * The unit tests: the line through the origin along (2, 2), and y = x, are
   * at squared distance 0.5 from (1, 0) and from (0, 1).
   */
  lemma DistanceExamples(math: MathLib)
    requires Lawful(math)
    ensures FromPointAndDirection(Point2D(0.0, 0.0), Vector2D(2.0, 2.0)) == Line2D(2.0, -2.0, 0.0)
    ensures FromSlope(1.0, 0.0) == Line2D(1.0, -1.0, 0.0)
    ensures Line2D(2.0, -2.0, 0.0).NormalLength(math) != 0.0 && Line2D(1.0, -1.0, 0.0).NormalLength(math) != 0.0
    ensures Square(Line2D(2.0, -2.0, 0.0).DistanceTo(Point2D(1.0, 0.0), math)) == 0.5
    ensures Square(Line2D(2.0, -2.0, 0.0).DistanceTo(Point2D(0.0, 1.0), math)) == 0.5
    ensures Square(Line2D(1.0, -1.0, 0.0).DistanceTo(Point2D(1.0, 0.0), math)) == 0.5
    ensures Square(Line2D(1.0, -1.0, 0.0).DistanceTo(Point2D(0.0, 1.0), math)) == 0.5
  {
    SquaredDistanceOf(Line2D(2.0, -2.0, 0.0), Point2D(1.0, 0.0), math, 4.0, 8.0);
    SquaredDistanceOf(Line2D(2.0, -2.0, 0.0), Point2D(0.0, 1.0), math, 4.0, 8.0);
    SquaredDistanceOf(Line2D(1.0, -1.0, 0.0), Point2D(1.0, 0.0), math, 1.0, 2.0);
    SquaredDistanceOf(Line2D(1.0, -1.0, 0.0), Point2D(0.0, 1.0), math, 1.0, 2.0);
  }

  function Square(x: real): real { x * x }

  /** The square of the signed distance is the squared residual over the squared normal length. */
  lemma SquaredDistanceOf(l: Line2D, p: Point2D, math: MathLib, r2: real, n2: real)
    requires Lawful(math) && 0.0 < n2
    requires n2 == l.A * l.A + l.B * l.B
    requires r2 == Square(l.A * p.X + l.B * p.Y - l.C)
    ensures l.NormalLength(math) != 0.0
    ensures Square(l.DistanceTo(p, math)) == r2 / n2
  {
    SqrtPositive(math, n2);
    DivSquare(l.A * p.X + l.B * p.Y - l.C, l.NormalLength(math));
  }

  // ---------------------------------------------------------------- projection

  /**
   * On the nearly horizontal branch the projection keeps the abscissa and its
   * distance is the drop to y = C / B; on the nearly vertical branch it keeps
   * the ordinate and its distance is the offset from x = C / A. On an exactly
   * horizontal or vertical line the projected point lies on the line.
   */
  lemma ProjectionShortcuts(l: Line2D, p: Point2D, math: MathLib)
    requires l.ProjectionDefined(math)
    ensures Abs(l.A) < Tolerance ==>
      l.Projection(p, math).Point == Point2D(p.X, l.C / l.B) && l.Projection(p, math).Distance == p.Y - l.C / l.B
    ensures Abs(l.A) >= Tolerance && Abs(l.B) < Tolerance ==>
      l.Projection(p, math).Point == Point2D(l.C / l.A, p.Y) && l.Projection(p, math).Distance == p.X - l.C / l.A
    ensures (l.A == 0.0 || l.B == 0.0) ==> l.IsInner(l.Projection(p, math).Point)
  {
    if l.A == 0.0 {
      DivMul(l.C, l.B);
    } else if l.B == 0.0 {
      DivMul(l.C, l.A);
    }
  }

  /**
   * On the general branch the projection is the foot of the perpendicular:
   * it lies on the line, its distance is the signed distance, and the point is
   * the foot moved along the normal (A, B) by that distance.
   */
  lemma ProjectionIsFoot(l: Line2D, p: Point2D, math: MathLib)
    requires Lawful(math) && Abs(l.A) >= Tolerance && Abs(l.B) >= Tolerance
    ensures l.ProjectionDefined(math)
    ensures l.IsInner(l.Projection(p, math).Point)
    ensures l.Projection(p, math).Distance == l.DistanceTo(p, math)
    ensures p.X == l.Projection(p, math).Point.X + l.A * (l.DistanceTo(p, math) / l.NormalLength(math))
    ensures p.Y == l.Projection(p, math).Point.Y + l.B * (l.DistanceTo(p, math) / l.NormalLength(math))
  {
    NormalsAgree(l, math);
    assert l.Projection(p, math) == l.SlantProjection(p, math);
    SlantFoot(l, p, math);
  }

  /** The length of (-B, A) is the normal length, and both are positive. */
  lemma NormalsAgree(l: Line2D, math: MathLib)
    requires Lawful(math) && Abs(l.A) >= Tolerance
    ensures Vector2D(-l.B, l.A).SquareLength() == l.A * l.A + l.B * l.B
    ensures Vector2D(-l.B, l.A).Length(math) == l.NormalLength(math)
    ensures l.NormalLength(math) > 0.0
    ensures l.NormalLength(math) * l.NormalLength(math) == l.A * l.A + l.B * l.B
  {
    SumOfSquares2(l.A, l.B);
    SqrtPositive(math, l.A * l.A + l.B * l.B);
  }

  lemma SlantFoot(l: Line2D, p: Point2D, math: MathLib)
    requires l.B != 0.0 && l.NormalLength(math) > 0.0 && Vector2D(-l.B, l.A).Length(math) == l.NormalLength(math)
    requires l.NormalLength(math) * l.NormalLength(math) == l.A * l.A + l.B * l.B
    ensures l.IsInner(l.SlantProjection(p, math).Point)
    ensures l.SlantProjection(p, math).Distance == l.DistanceTo(p, math)
    ensures p.X == l.SlantProjection(p, math).Point.X + l.A * (l.DistanceTo(p, math) / l.NormalLength(math))
    ensures p.Y == l.SlantProjection(p, math).Point.Y + l.B * (l.DistanceTo(p, math) / l.NormalLength(math))
  {
    SlantOnLine(l, p, math);
    SlantOffsetX(l, p, math);
    SlantOffsetY(l, p, math);
  }

  lemma SlantOnLine(l: Line2D, p: Point2D, math: MathLib)
    requires l.B != 0.0 && l.NormalLength(math) > 0.0 && Vector2D(-l.B, l.A).Length(math) == l.NormalLength(math)
    ensures l.IsInner(l.SlantProjection(p, math).Point)
  {
    GetPointByXSpec(l, p.X);
    DirectionSpec(l, math);
    FootOnLine(l.A, l.B, l.C, p.X, l.NormalLength(math), l.SlantScale(p, math),
      l.GetPointByX(p.X).value.Y, l.Direction(math).X, l.Direction(math).Y);
  }

  lemma SlantOffsetX(l: Line2D, p: Point2D, math: MathLib)
    requires l.B != 0.0 && l.NormalLength(math) > 0.0 && Vector2D(-l.B, l.A).Length(math) == l.NormalLength(math)
    ensures p.X == l.SlantProjection(p, math).Point.X + l.A * (l.DistanceTo(p, math) / l.NormalLength(math))
  {
    SlantScaleSpec(l, p, math);
    DirectionSpec(l, math);
    FootOffsetX(l.A, l.B, p.X, l.NormalLength(math), l.DistanceTo(p, math), l.SlantScale(p, math), l.Direction(math).X);
  }

  lemma SlantOffsetY(l: Line2D, p: Point2D, math: MathLib)
    requires l.B != 0.0 && l.NormalLength(math) > 0.0 && Vector2D(-l.B, l.A).Length(math) == l.NormalLength(math)
    requires l.NormalLength(math) * l.NormalLength(math) == l.A * l.A + l.B * l.B
    ensures p.Y == l.SlantProjection(p, math).Point.Y + l.B * (l.DistanceTo(p, math) / l.NormalLength(math))
  {
    GetPointByXSpec(l, p.X);
    SlantScaleSpec(l, p, math);
    DistanceResidual(l, p, math);
    DirectionSpec(l, math);
    FootOffsetY(l.A, l.B, l.C, p.X, p.Y, l.NormalLength(math), l.DistanceTo(p, math), l.SlantScale(p, math),
      l.GetPointByX(p.X).value.Y, l.Direction(math).Y);
  }

  lemma SlantScaleSpec(l: Line2D, p: Point2D, math: MathLib)
    requires l.B != 0.0 && l.NormalLength(math) != 0.0
    ensures l.SlantScale(p, math) * l.B == l.A * l.DistanceTo(p, math)
  {
    DivMul(l.A * l.DistanceTo(p, math), l.B);
  }

  lemma DistanceResidual(l: Line2D, p: Point2D, math: MathLib)
    requires l.NormalLength(math) != 0.0
    ensures l.DistanceTo(p, math) * l.NormalLength(math) == l.A * p.X + l.B * p.Y - l.C
  {
    DivMul(l.A * p.X + l.B * p.Y - l.C, l.NormalLength(math));
  }

  lemma DirectionSpec(l: Line2D, math: MathLib)
    requires l.NormalLength(math) != 0.0 && Vector2D(-l.B, l.A).Length(math) == l.NormalLength(math)
    ensures l.Direction(math).X * l.NormalLength(math) == -l.B && l.Direction(math).Y * l.NormalLength(math) == l.A
  {
    DivMul(-l.B, l.NormalLength(math));
    DivMul(l.A, l.NormalLength(math));
  }

  /**
   * The foot of the perpendicular from (x, y) to a x + b y = c is reached from
   * the line's point (x, pay) along the unit direction (dx, dy) by la, with d
   * the signed distance; the three lemmas below state it without division.
   */
  lemma FootOnLine(a: real, b: real, c: real, x: real, len: real, la: real, pay: real, dx: real, dy: real)
    requires len != 0.0 && dx * len == -b && dy * len == a
    requires c == a * x + b * pay
    ensures c == a * (x + la * dx) + b * (pay + la * dy)
  {
    assert (a * dx + b * dy) * len == 0.0 by {
      assert (a * dx + b * dy) * len == a * (dx * len) + b * (dy * len);
    }
    ZeroFactor(len, a * dx + b * dy);
    assert a * (x + la * dx) + b * (pay + la * dy) == a * x + b * pay + la * (a * dx + b * dy);
  }

  lemma FootOffsetX(a: real, b: real, x: real, len: real, d: real, la: real, dx: real)
    requires len != 0.0 && dx * len == -b && la * b == a * d
    ensures x == (x + la * dx) + a * (d / len)
  {
    var q := d / len;
    DivMul(d, len);
    assert (-la * dx - a * q) * len == 0.0 by {
      assert (-la * dx - a * q) * len == -(la * (dx * len)) - a * (q * len);
    }
    ZeroFactor(len, -la * dx - a * q);
  }

  lemma FootOffsetY(a: real, b: real, c: real, x: real, y: real, len: real, d: real, la: real, pay: real, dy: real)
    requires b != 0.0 && len != 0.0 && len * len == a * a + b * b
    requires d * len == a * x + b * y - c
    requires la * b == a * d
    requires c == a * x + b * pay
    requires dy * len == a
    ensures y == (pay + la * dy) + b * (d / len)
  {
    var q := d / len;
    DivMul(d, len);
    assert (y - pay - la * dy - b * q) * (b * len) == 0.0 by {
      assert (y - pay - la * dy) * (b * len) == len * (a * x + b * y - c) - (la * b) * (dy * len);
      assert len * (a * x + b * y - c) == d * (len * len);
      assert (la * b) * (dy * len) == a * d * a;
      assert (b * q) * (b * len) == b * b * (q * len);
    }
    ZeroFactor(b * len, y - pay - la * dy - b * q);
  }


}
