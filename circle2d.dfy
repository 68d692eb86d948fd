/**
 * Circle2D: a centre and a radius in the plane, its area and perimeter, and
 * the points where it meets a line or another circle (`None` for the
 * library's `null` when they do not meet).
 */
module Circles2D {
  import opened RealMath
  import opened Results
  import opened Primitives2D
  import opened Lines2D
  import opened Transforms2D

  datatype Circle2D = Circle2D(Center: Point2D, Radius: real)
  {
    /** pi r^2. */
    function Area(math: MathLib): real { math.PI * (Radius * Radius) }

    /** 2 pi r. */
    function Perimeter(math: MathLib): real { 2.0 * math.PI * Radius }

    /** The divisions Intersect(line) performs are by non-zero numbers: those of the projection and of the direction. */
    predicate LineIntersectDefined(line: Line2D, math: MathLib)
    {
      line.ProjectionDefined(math) && Vector2D(-line.B, line.A).Length(math) != 0.0
    }

    /**
     * The centre's projection on the line decides: one point, the projection
     * itself, when the radius and the distance |d| agree within the
     * tolerance; two points half a chord either side of it along the line's
     * direction when the radius exceeds |d| by more than the tolerance; none
     * otherwise.
     */
    function IntersectLine(line: Line2D, math: MathLib): Option<seq<IntersectResult<Point2D>>>
      requires LineIntersectDefined(line, math)
    {
      var pRes := line.Projection(Center, math);
      if Abs(Radius - Abs(pRes.Distance)) <= Tolerance then Some([Hit(pRes.Point)])
      else if Radius - Abs(pRes.Distance) > Tolerance then Some(Secant(pRes, line.Direction(math), Radius, math))
      else None
    }

    /**
     * The divisions Intersect(circle) performs on the branch it takes are by
     * non-zero numbers: the vector between the centres is normalised on both
     * branches that meet, and the crossing branch divides by 2 r d.
     */
    predicate CircleIntersectDefined(other: Circle2D, math: MathLib)
    {
      var d := Center.DistanceTo(other.Center, math);
      && (d == Radius + other.Radius || Crossing(d, Radius, other.Radius) ==>
            Vector2D.Between(Center, other.Center).Length(math) != 0.0)
      && (Crossing(d, Radius, other.Radius) ==> 2.0 * Radius * d != 0.0)
    }

    /**
     * Two circles whose centres are exactly r1 + r2 apart touch at one point,
     * r1 along the unit vector towards the other centre. When the distance is
     * strictly between |r1 - r2| and r1 + r2 they cross at two points: that
     * unit vector turned by plus and minus the angle whose cosine is
     * (r1^2 + d^2 - r2^2) / (2 r1 d), scaled by r1. Otherwise, internal
     * tangency included, none.
     */
    function IntersectCircle(other: Circle2D, math: MathLib): Option<seq<IntersectResult<Point2D>>>
      requires CircleIntersectDefined(other, math)
    {
      var distance := Center.DistanceTo(other.Center, math);
      if distance == Radius + other.Radius then
        var dir := Vector2D.Between(Center, other.Center).Normalize(math);
        Some([Hit(Center.Add(dir.Scaled(Radius)))])
      else if Crossing(distance, Radius, other.Radius) then
        var angle := math.Acos(CrossingCosine(Radius, other.Radius, distance));
        var dir := Vector2D.Between(Center, other.Center).Normalize(math);
        var dirA := CreateRotation(angle, math).OfVector(dir);
        var dirB := CreateRotation(-angle, math).OfVector(dir);
        Some([Hit(Center.Add(dirA.Scaled(Radius))), Hit(Center.Add(dirB.Scaled(Radius)))])
      else None
    }
  }

  /** The two points half a chord before and after the projected point along `direction`. */
  function Secant(pRes: ProjectionResult<Point2D>, direction: Vector2D, radius: real, math: MathLib)
    : seq<IntersectResult<Point2D>>
  {
    var half := HalfChord(radius, pRes.Distance, math);
    [Hit(pRes.Point.Subtract(Vector2D.Times(half, direction))), Hit(pRes.Point.Add(Vector2D.Times(half, direction)))]
  }

  /** Centre distance d strictly between |r1 - r2| and r1 + r2. */
  predicate Crossing(d: real, r1: real, r2: real)
  {
    d < r1 + r2 && d > Abs(r1 - r2)
  }

  /** The law of cosines solved for the angle at the first centre. */
  function CrossingCosine(r1: real, r2: real, d: real): real
    requires 2.0 * r1 * d != 0.0
  {
    (r1 * r1 + d * d - r2 * r2) / (2.0 * r1 * d)
  }

  // ---------------------------------------------------------------- area and perimeter

  /** The area is non-negative and zero only for radius zero; the perimeter is positive exactly for a positive radius, and r times it is twice the area. */
  lemma AreaAndPerimeter(c: Circle2D, math: MathLib)
    requires Lawful(math)
    ensures 0.0 <= c.Area(math)
    ensures c.Area(math) == 0.0 <==> c.Radius == 0.0
    ensures 0.0 < c.Perimeter(math) <==> 0.0 < c.Radius
    ensures c.Perimeter(math) * c.Radius == 2.0 * c.Area(math)
  {
    SquareNonNegative(c.Radius);
    assert Mul(c.Radius, c.Radius) == c.Radius * c.Radius;
    MulNonNegative(math.PI, c.Radius * c.Radius);
    if c.Radius != 0.0 {
      MulPositive(math.PI, c.Radius * c.Radius);
    }
    if 0.0 < c.Radius {
      MulPositive(2.0 * math.PI, c.Radius);
    } else {
      MulNonNegative(2.0 * math.PI, -c.Radius);
    }
  }

  // ---------------------------------------------------------------- circle and line

  /**
   * The three outcomes of Intersect(line): the projection alone exactly when
   * |r - |d|| is within the tolerance, two points exactly when r - |d|
   * exceeds it, and none exactly when |d| exceeds r by more than it.
   */
  lemma LineIntersectCases(c: Circle2D, line: Line2D, math: MathLib)
    requires c.LineIntersectDefined(line, math)
    ensures var pRes := line.Projection(c.Center, math);
      && (Abs(c.Radius - Abs(pRes.Distance)) <= Tolerance <==> c.IntersectLine(line, math) == Some([Hit(pRes.Point)]))
      && (c.Radius - Abs(pRes.Distance) > Tolerance <==>
            c.IntersectLine(line, math).Some? && |c.IntersectLine(line, math).value| == 2)
      && (c.IntersectLine(line, math).None? <==> c.Radius - Abs(pRes.Distance) < -Tolerance)
  {
  }

  /** The two points of a secant are symmetric about the projection, 2 sqrt(r^2 - d^2) apart along the direction. */
  lemma SecantSymmetric(c: Circle2D, line: Line2D, math: MathLib)
    requires c.LineIntersectDefined(line, math)
    requires c.Radius - Abs(line.Projection(c.Center, math).Distance) > Tolerance
    ensures c.IntersectLine(line, math).Some? && |c.IntersectLine(line, math).value| == 2
    ensures var p := line.Projection(c.Center, math).Point;
      var hits := c.IntersectLine(line, math).value;
      Vector2D.Between(hits[0].Point, p) == Vector2D.Between(p, hits[1].Point)
    ensures var hits := c.IntersectLine(line, math).value;
      Vector2D.Between(hits[0].Point, hits[1].Point)
        == Vector2D.Times(2.0 * HalfChord(c.Radius, line.Projection(c.Center, math).Distance, math), line.Direction(math))
  {
  }

  /**
   * For a line that is neither nearly horizontal nor nearly vertical (where
   * the projection is the true foot of the perpendicular) every point
   * Intersect(line) returns is on the line; the two points of a secant are
   * exactly r from the centre, and the single point is within the tolerance
   * of it.
   */
  lemma LineHitsOnCircle(c: Circle2D, line: Line2D, math: MathLib)
    requires Lawful(math) && Abs(line.A) >= Tolerance && Abs(line.B) >= Tolerance
    ensures c.LineIntersectDefined(line, math)
    ensures c.IntersectLine(line, math).Some? ==> forall h <- c.IntersectLine(line, math).value :: line.IsInner(h.Point)
    ensures c.IntersectLine(line, math).Some? && |c.IntersectLine(line, math).value| == 2 ==>
      forall h <- c.IntersectLine(line, math).value :: c.Center.DistanceTo(h.Point, math) == c.Radius
    ensures c.IntersectLine(line, math).Some? && |c.IntersectLine(line, math).value| == 1 ==>
      Abs(c.Center.DistanceTo(c.IntersectLine(line, math).value[0].Point, math) - c.Radius) <= Tolerance
  {
    SlantedLine(line, math);
    var d := line.Projection(c.Center, math).Distance;
    if Abs(c.Radius - Abs(d)) <= Tolerance {
      TangentHit(c, line, math);
    } else if c.Radius - Abs(d) > Tolerance {
      SecantHits(c, line, math);
    }
  }

  /** The single point of a slanted line at distance r from the centre, within the tolerance. */
  lemma TangentHit(c: Circle2D, line: Line2D, math: MathLib)
    requires Lawful(math) && Slanted(line, math)
    requires Abs(c.Radius - Abs(line.Projection(c.Center, math).Distance)) <= Tolerance
    ensures c.LineIntersectDefined(line, math)
    ensures c.IntersectLine(line, math) == Some([Hit(line.Projection(c.Center, math).Point)])
    ensures line.IsInner(line.Projection(c.Center, math).Point)
    ensures Abs(c.Center.DistanceTo(line.Projection(c.Center, math).Point, math) - c.Radius) <= Tolerance
  {
    FootDistance(line, c.Center, math);
    SlantFootInner(line, c.Center, math);
  }

  /** The two points of a slanted line passing closer to the centre than r: on the line and exactly r from the centre. */
  lemma SecantHits(c: Circle2D, line: Line2D, math: MathLib)
    requires Lawful(math) && Slanted(line, math)
    requires c.Radius - Abs(line.Projection(c.Center, math).Distance) > Tolerance
    ensures c.LineIntersectDefined(line, math)
    ensures c.IntersectLine(line, math).Some? && |c.IntersectLine(line, math).value| == 2
    ensures forall h <- c.IntersectLine(line, math).value ::
      line.IsInner(h.Point) && c.Center.DistanceTo(h.Point, math) == c.Radius
  {
    SlantDistance(line, c.Center, math);
    var pRes := line.Projection(c.Center, math);
    SecantPoints(pRes, line.Direction(math), c.Radius, math, HalfChord(c.Radius, pRes.Distance, math));
    AlongFootOnLine(line, c.Center, math);
    SecantDistances(c, line, math);
  }

  /** Half a chord h either side of the projection, d^2 + h^2 = r^2 for the signed distance d: r from the centre. */
  lemma SecantDistances(c: Circle2D, line: Line2D, math: MathLib)
    requires Lawful(math) && Slanted(line, math)
    requires c.Radius - Abs(line.Projection(c.Center, math).Distance) > Tolerance
    ensures line.ProjectionDefined(math) && Vector2D(-line.B, line.A).Length(math) != 0.0
    ensures var pRes := line.Projection(c.Center, math);
      var h := HalfChord(c.Radius, pRes.Distance, math);
      forall s | s == -h || s == h ::
        c.Center.DistanceTo(pRes.Point.Add(Vector2D.Times(s, line.Direction(math))), math) == c.Radius
  {
    SlantFootFrame(line, c.Center, math);
    var pRes := line.Projection(c.Center, math);
    SecantFrame(c.Center, pRes.Point, line.Direction(math), pRes.Distance, c.Radius, math);
  }

  /** The projection as an explicit pair of points, the first written as a move by -h. */
  lemma SecantPoints(pRes: ProjectionResult<Point2D>, dir: Vector2D, r: real, math: MathLib, h: real)
    requires h == HalfChord(r, pRes.Distance, math)
    ensures Secant(pRes, dir, r, math)
      == [Hit(pRes.Point.Add(Vector2D.Times(-h, dir))), Hit(pRes.Point.Add(Vector2D.Times(h, dir)))]
  {
    assert pRes.Point.Subtract(Vector2D.Times(h, dir)) == pRes.Point.Add(Vector2D.Times(-h, dir));
  }

  /**
   * A line that is neither nearly horizontal nor nearly vertical, with the
   * square-root facts about its normal that its projection relies on.
   */
  ghost predicate Slanted(line: Line2D, math: MathLib)
  {
    && Abs(line.A) >= Tolerance && Abs(line.B) >= Tolerance
    && line.NormalLength(math) > 0.0
    && Vector2D(-line.B, line.A).Length(math) == line.NormalLength(math)
    && line.NormalLength(math) * line.NormalLength(math) == line.A * line.A + line.B * line.B
  }

  lemma SlantedLine(line: Line2D, math: MathLib)
    requires Lawful(math) && Abs(line.A) >= Tolerance && Abs(line.B) >= Tolerance
    ensures Slanted(line, math)
  {
    NormalsAgree(line, math);
  }

  /**
   * A point p seen from a foot f along a unit direction dir: p sits d
   * across from f, at right angles to dir.
   */
  predicate FootFrame(p: Point2D, f: Point2D, dir: Vector2D, d: real)
  {
    && dir.SquareLength() == 1.0
    && Vector2D.Between(f, p).DotProduct(dir) == 0.0
    && Vector2D.Between(f, p).SquareLength() == d * d
  }

  /** On the general branch the projection is the slant projection, and its distance is the signed distance. */
  lemma SlantDistance(line: Line2D, p: Point2D, math: MathLib)
    requires Slanted(line, math)
    ensures line.ProjectionDefined(math) && Vector2D(-line.B, line.A).Length(math) != 0.0
    ensures line.Projection(p, math) == line.SlantProjection(p, math)
    ensures line.Projection(p, math).Distance == line.DistanceTo(p, math)
  {
    assert line.Projection(p, math) == line.SlantProjection(p, math);
  }

  /** On the general branch the projection is on the line. */
  lemma SlantFootInner(line: Line2D, p: Point2D, math: MathLib)
    requires Slanted(line, math)
    ensures line.ProjectionDefined(math) && Vector2D(-line.B, line.A).Length(math) != 0.0
    ensures line.IsInner(line.Projection(p, math).Point)
  {
    assert line.Projection(p, math) == line.SlantProjection(p, math);
    SlantOnLine(line, p, math);
  }

  /** Every point reached from the slant projection along the line's direction is on the line. */
  lemma AlongFootOnLine(line: Line2D, p: Point2D, math: MathLib)
    requires Slanted(line, math)
    ensures line.B != 0.0 && line.NormalLength(math) != 0.0 && Vector2D(-line.B, line.A).Length(math) != 0.0
    ensures forall s: real :: line.IsInner(line.SlantProjection(p, math).Point.Add(Vector2D.Times(s, line.Direction(math))))
  {
    SlantPerpendicular(line, math);
    SlantOnLine(line, p, math);
    ChordsOnLine(line, line.SlantProjection(p, math).Point, line.Direction(math));
  }

  /** On the general branch the point is as far from its projection as the projection distance says. */
  lemma FootDistance(line: Line2D, p: Point2D, math: MathLib)
    requires Lawful(math) && Slanted(line, math)
    ensures line.ProjectionDefined(math) && Vector2D(-line.B, line.A).Length(math) != 0.0
    ensures p.DistanceTo(line.Projection(p, math).Point, math) == Abs(line.Projection(p, math).Distance)
  {
    SlantFootFrame(line, p, math);
    TangentPoint(p, line.Projection(p, math).Point, line.Direction(math), line.Projection(p, math).Distance, math);
  }

  /** On the general branch the projection, the direction and the projection distance form a foot frame. */
  lemma SlantFootFrame(line: Line2D, p: Point2D, math: MathLib)
    requires Slanted(line, math)
    ensures line.ProjectionDefined(math) && Vector2D(-line.B, line.A).Length(math) != 0.0
    ensures FootFrame(p, line.Projection(p, math).Point, line.Direction(math), line.Projection(p, math).Distance)
  {
    SlantDirection(line, math);
    SlantFootAcross(line, p, math);
  }

  /** On the general branch the point sits the signed distance across the line from its projection, at right angles. */
  lemma SlantFootAcross(line: Line2D, p: Point2D, math: MathLib)
    requires Slanted(line, math)
    ensures line.ProjectionDefined(math) && Vector2D(-line.B, line.A).Length(math) != 0.0
    ensures Vector2D.Between(line.Projection(p, math).Point, p).DotProduct(line.Direction(math)) == 0.0
    ensures Vector2D.Between(line.Projection(p, math).Point, p).SquareLength()
      == line.Projection(p, math).Distance * line.Projection(p, math).Distance
  {
    FootOffset(line, p, math);
    FootOffsetAcross(line, p, line.Projection(p, math).Point, line.Projection(p, math).Distance, math);
  }

  /** The direction of a slanted line is at right angles to (a, b). */
  lemma SlantPerpendicular(line: Line2D, math: MathLib)
    requires Slanted(line, math)
    ensures Vector2D(-line.B, line.A).Length(math) != 0.0
    ensures line.A * line.Direction(math).X + line.B * line.Direction(math).Y == 0.0
  {
    SlantDirection(line, math);
  }

  /** The direction of a slanted line is a unit vector at right angles to (a, b). */
  lemma SlantDirection(line: Line2D, math: MathLib)
    requires Slanted(line, math)
    ensures Vector2D(-line.B, line.A).Length(math) != 0.0
    ensures line.Direction(math).SquareLength() == 1.0
    ensures line.A * line.Direction(math).X + line.B * line.Direction(math).Y == 0.0
  {
    DirectionSpec(line, math);
    DirectionArithmetic(line.Direction(math), line.A, line.B, line.NormalLength(math));
  }

  /** A point (a, b) d / n away from a foot f is at right angles to the direction, |d| from f. */
  lemma FootOffsetAcross(line: Line2D, p: Point2D, f: Point2D, d: real, math: MathLib)
    requires Slanted(line, math)
    requires p.X == f.X + line.A * (d / line.NormalLength(math))
    requires p.Y == f.Y + line.B * (d / line.NormalLength(math))
    ensures Vector2D(-line.B, line.A).Length(math) != 0.0
    ensures Vector2D.Between(f, p).DotProduct(line.Direction(math)) == 0.0
    ensures Vector2D.Between(f, p).SquareLength() == d * d
  {
    SlantDirection(line, math);
    DivMul(d, line.NormalLength(math));
    OffsetArithmetic(f, p, line.Direction(math), line.A, line.B, line.NormalLength(math), d / line.NormalLength(math), d);
  }

  /** On the general branch the projection is (a, b) d / n short of the point, with d the projection distance. */
  lemma FootOffset(line: Line2D, p: Point2D, math: MathLib)
    requires Slanted(line, math)
    ensures line.ProjectionDefined(math) && line.NormalLength(math) != 0.0
    ensures p.X == line.Projection(p, math).Point.X + line.A * (line.Projection(p, math).Distance / line.NormalLength(math))
    ensures p.Y == line.Projection(p, math).Point.Y + line.B * (line.Projection(p, math).Distance / line.NormalLength(math))
  {
    assert line.Projection(p, math) == line.SlantProjection(p, math);
    SlantOffsetX(line, p, math);
    SlantOffsetY(line, p, math);
  }

  /** The direction (dx, dy) = (-b, a) / n with n^2 = a^2 + b^2 is a unit vector at right angles to (a, b). */
  lemma DirectionArithmetic(dir: Vector2D, a: real, b: real, n: real)
    requires 0.0 < n && n * n == a * a + b * b
    requires dir.X * n == -b && dir.Y * n == a
    ensures dir.SquareLength() == 1.0
    ensures a * dir.X + b * dir.Y == 0.0
  {
    var dx, dy := dir.X, dir.Y;
    assert (dx * dx + dy * dy - 1.0) * (n * n) == 0.0 by {
      assert (dx * dx + dy * dy) * (n * n) == (dx * n) * (dx * n) + (dy * n) * (dy * n);
    }
    MulPositive(n, n);
    ZeroFactor(n * n, dx * dx + dy * dy - 1.0);
    assert (a * dx + b * dy) * n == 0.0 by {
      assert (a * dx + b * dy) * n == a * (dx * n) + b * (dy * n);
    }
    ZeroFactor(n, a * dx + b * dy);
  }

  /** The offset from f to p = f + (a, b) q, with q n = d, is at right angles to a direction normal to (a, b), and as long as |d|. */
  lemma OffsetArithmetic(f: Point2D, p: Point2D, dir: Vector2D, a: real, b: real, n: real, q: real, d: real)
    requires p.X == f.X + a * q && p.Y == f.Y + b * q
    requires a * dir.X + b * dir.Y == 0.0
    requires q * n == d && n * n == a * a + b * b
    ensures Vector2D.Between(f, p).DotProduct(dir) == 0.0
    ensures Vector2D.Between(f, p).SquareLength() == d * d
  {
    var w := Vector2D.Between(f, p);
    assert w == Vector2D(a * q, b * q);
    assert w.DotProduct(dir) == q * (a * dir.X + b * dir.Y);
    assert w.SquareLength() == (q * n) * (q * n) by {
      assert w.SquareLength() == (a * a + b * b) * (q * q);
    }
  }

  /** The single point: the foot itself, |d| from the centre. */
  lemma TangentPoint(p: Point2D, f: Point2D, dir: Vector2D, d: real, math: MathLib)
    requires Lawful(math) && FootFrame(p, f, dir, d)
    ensures p.DistanceTo(f, math) == Abs(d)
  {
    SqrtOfSquare(math, d);
    assert p.SquareDistanceTo(f) == d * d;
  }

  /** Both ends of the chord, h either side of the foot when d^2 + h^2 = r^2: exactly r from the centre. */
  lemma ChordEnds(p: Point2D, f: Point2D, dir: Vector2D, d: real, r: real, h: real, math: MathLib)
    requires FootFrame(p, f, dir, d)
    requires d * d + h * h == r * r && math.Sqrt(r * r) == r
    ensures forall s | s == -h || s == h :: p.DistanceTo(f.Add(Vector2D.Times(s, dir)), math) == r
  {
    assert d * d + (-h) * (-h) == r * r;
    ChordPoint(p, f, dir, d, -h, r, math);
    ChordPoint(p, f, dir, d, h, r, math);
  }

  /** In a foot frame with |d| < r, both ends of the half chord h = sqrt(r^2 - d^2) either side of the foot are r from p. */
  lemma SecantFrame(p: Point2D, f: Point2D, dir: Vector2D, d: real, r: real, math: MathLib)
    requires Lawful(math) && FootFrame(p, f, dir, d) && r - Abs(d) > Tolerance
    ensures forall s | s == -HalfChord(r, d, math) || s == HalfChord(r, d, math) ::
      p.DistanceTo(f.Add(Vector2D.Times(s, dir)), math) == r
  {
    HalfChordSpec(r, d, math);
    SqrtOfNonNegativeSquare(math, r);
    ChordEnds(p, f, dir, d, r, HalfChord(r, d, math), math);
  }

  /** The point s along the line from the foot, when d^2 + s^2 = r^2: r from the centre. */
  lemma ChordPoint(p: Point2D, f: Point2D, dir: Vector2D, d: real, s: real, r: real, math: MathLib)
    requires FootFrame(p, f, dir, d)
    requires d * d + s * s == r * r && math.Sqrt(r * r) == r
    ensures p.DistanceTo(f.Add(Vector2D.Times(s, dir)), math) == r
  {
    ChordSquare(p, f, dir, d, s, r);
  }

  /** Moving along a direction at right angles to (a, b) stays on the line. */
  lemma ChordOnLine(line: Line2D, f: Point2D, dir: Vector2D, s: real)
    requires line.IsInner(f) && line.A * dir.X + line.B * dir.Y == 0.0
    ensures line.IsInner(f.Add(Vector2D.Times(s, dir)))
  {
    assert line.A * (f.X + s * dir.X) + line.B * (f.Y + s * dir.Y)
        == line.A * f.X + line.B * f.Y + s * (line.A * dir.X + line.B * dir.Y);
  }

  /** Every point reached from a point of the line along a direction at right angles to (a, b) is on the line. */
  lemma ChordsOnLine(line: Line2D, f: Point2D, dir: Vector2D)
    requires line.IsInner(f) && line.A * dir.X + line.B * dir.Y == 0.0
    ensures forall s: real :: line.IsInner(f.Add(Vector2D.Times(s, dir)))
  {
    forall s: real
      ensures line.IsInner(f.Add(Vector2D.Times(s, dir)))
    {
      ChordOnLine(line, f, dir, s);
    }
  }

  /** Pythagoras: s along the unit direction from the foot, the square distance to p is d^2 + s^2. */
  lemma ChordSquare(p: Point2D, f: Point2D, dir: Vector2D, d: real, s: real, r: real)
    requires dir.SquareLength() == 1.0
    requires Vector2D.Between(f, p).DotProduct(dir) == 0.0 && Vector2D.Between(f, p).SquareLength() == d * d
    requires d * d + s * s == r * r
    ensures p.SquareDistanceTo(f.Add(Vector2D.Times(s, dir))) == r * r
  {
    var w := Vector2D.Between(f, p);
    assert p.SquareDistanceTo(f.Add(Vector2D.Times(s, dir)))
        == w.SquareLength() - 2.0 * s * w.DotProduct(dir) + s * s * dir.SquareLength();
  }

  // ---------------------------------------------------------------- two circles

  /**
   * The three outcomes of Intersect(circle): one point exactly when the
   * centres are r1 + r2 apart, two exactly when the distance is strictly
   * between |r1 - r2| and r1 + r2, none otherwise.
   */
  lemma CircleIntersectCases(c: Circle2D, other: Circle2D, math: MathLib)
    requires c.CircleIntersectDefined(other, math)
    ensures var d := c.Center.DistanceTo(other.Center, math);
      && (d == c.Radius + other.Radius <==>
            c.IntersectCircle(other, math).Some? && |c.IntersectCircle(other, math).value| == 1)
      && (Crossing(d, c.Radius, other.Radius) <==>
            c.IntersectCircle(other, math).Some? && |c.IntersectCircle(other, math).value| == 2)
      && (c.IntersectCircle(other, math).None? <==> d != c.Radius + other.Radius && !Crossing(d, c.Radius, other.Radius))
  {
  }

  /** Internal tangency is not reported: centres |r1 - r2| apart give no point. */
  lemma InternalTangencyMissed(c: Circle2D, other: Circle2D, math: MathLib)
    requires c.Center.DistanceTo(other.Center, math) == Abs(c.Radius - other.Radius)
    requires c.Center.DistanceTo(other.Center, math) != c.Radius + other.Radius
    ensures c.CircleIntersectDefined(other, math)
    ensures c.IntersectCircle(other, math) == None
  {
  }

  /** Externally touching circles with distinct centres: the one point is r1 from the first centre and r2 from the second. */
  lemma TangentPointOnBoth(c: Circle2D, other: Circle2D, math: MathLib)
    requires Lawful(math) && 0.0 <= c.Radius && 0.0 <= other.Radius && c.Center != other.Center
    requires c.Center.DistanceTo(other.Center, math) == c.Radius + other.Radius
    ensures c.CircleIntersectDefined(other, math)
    ensures c.IntersectCircle(other, math).Some? && |c.IntersectCircle(other, math).value| == 1
    ensures c.Center.DistanceTo(c.IntersectCircle(other, math).value[0].Point, math) == c.Radius
    ensures other.Center.DistanceTo(c.IntersectCircle(other, math).value[0].Point, math) == other.Radius
  {
    var v := Vector2D.Between(c.Center, other.Center);
    DistanceProperties(c.Center, other.Center, math);
    NormalizeIsUnit(v, math);
    var u := v.Normalize(math);
    var q := c.Center.Add(u.Scaled(c.Radius));
    assert c.IntersectCircle(other, math) == Some([Hit(q)]);
    ScaledUnitDistance(c.Center, u, c.Radius, math);
    TangentFromOther(c.Center, other.Center, u, v.Length(math), c.Radius, other.Radius);
    ScaledUnitDistance(other.Center, u, -other.Radius, math);
  }

  /** The point r1 along u from c1 is r2 back along u from c2 when c2 is r1 + r2 along u from c1. */
  lemma TangentFromOther(c1: Point2D, c2: Point2D, u: Vector2D, l: real, r1: real, r2: real)
    requires u.Scaled(l) == Vector2D.Between(c1, c2) && l == r1 + r2
    ensures c1.Add(u.Scaled(r1)) == c2.Add(u.Scaled(-r2))
  {
    assert c2.X == c1.X + l * u.X && c2.Y == c1.Y + l * u.Y;
  }

  /** Moving k along a unit vector covers distance |k|. */
  lemma ScaledUnitDistance(p: Point2D, u: Vector2D, k: real, math: MathLib)
    requires Lawful(math) && u.SquareLength() == 1.0
    ensures p.DistanceTo(p.Add(u.Scaled(k)), math) == Abs(k)
  {
    assert p.SquareDistanceTo(p.Add(u.Scaled(k))) == k * k * u.SquareLength();
    assert p.SquareDistanceTo(p.Add(u.Scaled(k))) == k * k;
    SqrtOfSquare(math, k);
  }

  /** Crossing circles: both points are r1 from the first centre and r2 from the second. */
  lemma CrossingPointsOnBoth(c: Circle2D, other: Circle2D, math: MathLib)
    requires Lawful(math) && Crossing(c.Center.DistanceTo(other.Center, math), c.Radius, other.Radius)
    ensures c.CircleIntersectDefined(other, math)
    ensures c.IntersectCircle(other, math).Some? && |c.IntersectCircle(other, math).value| == 2
    ensures forall h <- c.IntersectCircle(other, math).value ::
      c.Center.DistanceTo(h.Point, math) == c.Radius && other.Center.DistanceTo(h.Point, math) == other.Radius
  {
    CrossingSetup(c, other, math);
    CrossingAngle(c.Radius, other.Radius, c.Center.DistanceTo(other.Center, math));
    var d := c.Center.DistanceTo(other.Center, math);
    var angle := math.Acos(CrossingCosine(c.Radius, other.Radius, d));
    CrossingPoint(c, other, angle, math);
    CrossingPoint(c, other, -angle, math);
  }

  /** The first centre plus r1 times the unit vector towards the second turned by the crossing angle, either sign: r1 from the first centre and r2 from the second. */
  lemma CrossingPoint(c: Circle2D, other: Circle2D, a: real, math: MathLib)
    requires Lawful(math) && Crossing(c.Center.DistanceTo(other.Center, math), c.Radius, other.Radius)
    requires 2.0 * c.Radius * c.Center.DistanceTo(other.Center, math) != 0.0
    requires a == math.Acos(CrossingCosine(c.Radius, other.Radius, c.Center.DistanceTo(other.Center, math)))
          || a == -math.Acos(CrossingCosine(c.Radius, other.Radius, c.Center.DistanceTo(other.Center, math)))
    ensures Vector2D.Between(c.Center, other.Center).Length(math) != 0.0
    ensures var q := c.Center.Add(CreateRotation(a, math).OfVector(Vector2D.Between(c.Center, other.Center).Normalize(math)).Scaled(c.Radius));
      c.Center.DistanceTo(q, math) == c.Radius && other.Center.DistanceTo(q, math) == other.Radius
  {
    var d := c.Center.DistanceTo(other.Center, math);
    CrossingSetup(c, other, math);
    CrossingAngleCosine(c.Radius, other.Radius, d, a, math);
    var u := Vector2D.Between(c.Center, other.Center).Normalize(math);
    RotatedPointFirst(c.Center, c.Radius, u, a, math);
    RotatedPointSecond(c.Center, other.Center, c.Radius, other.Radius, d, u, a, math);
  }

  /** Either angle Intersect(circle) turns by has the law-of-cosines cosine. */
  lemma CrossingAngleCosine(r1: real, r2: real, d: real, a: real, math: MathLib)
    requires Lawful(math) && Crossing(d, r1, r2) && 2.0 * r1 * d != 0.0
    requires a == math.Acos(CrossingCosine(r1, r2, d)) || a == -math.Acos(CrossingCosine(r1, r2, d))
    ensures math.Cos(a) == CrossingCosine(r1, r2, d)
  {
    CrossingAngle(r1, r2, d);
    AcosInverse(CrossingCosine(r1, r2, d), math);
  }

  /** For crossing circles the centres differ: the unit vector between them, scaled by their distance, is the vector between them. */
  lemma CrossingSetup(c: Circle2D, other: Circle2D, math: MathLib)
    requires Lawful(math) && Crossing(c.Center.DistanceTo(other.Center, math), c.Radius, other.Radius)
    ensures c.CircleIntersectDefined(other, math)
    ensures 0.0 <= c.Radius && 0.0 <= other.Radius
    ensures Vector2D.Between(c.Center, other.Center).Normalize(math).SquareLength() == 1.0
    ensures Vector2D.Between(c.Center, other.Center).Normalize(math).Scaled(c.Center.DistanceTo(other.Center, math))
      == Vector2D.Between(c.Center, other.Center)
  {
    var v := Vector2D.Between(c.Center, other.Center);
    CrossingCosineRange(c.Radius, other.Radius, c.Center.DistanceTo(other.Center, math));
    DistanceProperties(c.Center, other.Center, math);
    assert v != Vector2D.Zero();
    NormalizeIsUnit(v, math);
  }

  /** The cosine of the crossing angle, times 2 r1 d, is r1^2 + d^2 - r2^2. */
  lemma CrossingAngle(r1: real, r2: real, d: real)
    requires Crossing(d, r1, r2)
    ensures 2.0 * r1 * d != 0.0
    ensures -1.0 <= CrossingCosine(r1, r2, d) <= 1.0
    ensures CrossingCosine(r1, r2, d) * (2.0 * r1 * d) == r1 * r1 + d * d - r2 * r2
  {
    CrossingCosineRange(r1, r2, d);
    DivMul(r1 * r1 + d * d - r2 * r2, 2.0 * r1 * d);
  }

  /** Acos is a right inverse of Cos on [-1, 1], for the angle and its negation. */
  lemma AcosInverse(x: real, math: MathLib)
    requires Lawful(math) && -1.0 <= x <= 1.0
    ensures math.Cos(math.Acos(x)) == x && math.Cos(-math.Acos(x)) == x
  {
    assert math.Cos(-math.Acos(x)) == math.Cos(math.Acos(x));
  }

  /** For crossing circles both radii and the distance are positive and the cosine is in [-1, 1]. */
  lemma CrossingCosineRange(r1: real, r2: real, d: real)
    requires Crossing(d, r1, r2)
    ensures 0.0 < r1 && 0.0 < r2 && 0.0 < d && 2.0 * r1 * d != 0.0
    ensures -1.0 <= CrossingCosine(r1, r2, d) <= 1.0
  {
    MulPositive(2.0 * r1, d);
    var k := 2.0 * r1 * d;
    var x := CrossingCosine(r1, r2, d);
    DivMul(r1 * r1 + d * d - r2 * r2, k);
    SquareStrictlyIncreasing(Abs(r1 - d), r2);
    assert Abs(r1 - d) * Abs(r1 - d) == (r1 - d) * (r1 - d);
    SquareStrictlyIncreasing(r2, r1 + d);
    if x > 1.0 {
      MulPositive(x - 1.0, k);
      assert false;
    }
    if x < -1.0 {
      MulPositive(-1.0 - x, k);
      assert false;
    }
  }

  /** The point r1 along the unit u turned by a, from c1: r1 from c1. */
  lemma RotatedPointFirst(c1: Point2D, r1: real, u: Vector2D, a: real, math: MathLib)
    requires Lawful(math) && 0.0 <= r1 && u.SquareLength() == 1.0
    ensures c1.DistanceTo(c1.Add(CreateRotation(a, math).OfVector(u).Scaled(r1)), math) == r1
  {
    RotatedUnit(a, u, math);
    ScaledUnitDistance(c1, CreateRotation(a, math).OfVector(u), r1, math);
  }

  /**
   * The point r1 along u turned by a, from c1, when c2 is l along the unit u
   * and cos a = (r1^2 + l^2 - r2^2) / (2 r1 l): r2 from c2.
   */
  lemma RotatedPointSecond(c1: Point2D, c2: Point2D, r1: real, r2: real, l: real, u: Vector2D, a: real, math: MathLib)
    requires Lawful(math) && 0.0 <= r2 && u.SquareLength() == 1.0
    requires u.Scaled(l) == Vector2D.Between(c1, c2)
    requires 2.0 * r1 * l != 0.0 && math.Cos(a) == CrossingCosine(r1, r2, l)
    ensures c2.DistanceTo(c1.Add(CreateRotation(a, math).OfVector(u).Scaled(r1)), math) == r2
  {
    RotatedUnit(a, u, math);
    SecondSquare(c1, c2, u, CreateRotation(a, math).OfVector(u), l, r1, r2, math.Cos(a));
    SqrtOfSquare(math, r2);
  }

  /** With cos a = (r1^2 + l^2 - r2^2) / (2 r1 l), the turned point is r2 from c2 by the law of cosines. */
  lemma SecondSquare(c1: Point2D, c2: Point2D, u: Vector2D, w: Vector2D, l: real, r1: real, r2: real, x: real)
    requires u.SquareLength() == 1.0 && w.SquareLength() == 1.0 && u.DotProduct(w) == x
    requires u.Scaled(l) == Vector2D.Between(c1, c2)
    requires 2.0 * r1 * l != 0.0 && x == CrossingCosine(r1, r2, l)
    ensures c2.SquareDistanceTo(c1.Add(w.Scaled(r1))) == r2 * r2
  {
    LawOfCosines(c1, c2, u, w, l, r1, x);
    DivMul(r1 * r1 + l * l - r2 * r2, 2.0 * r1 * l);
    assert 2.0 * l * r1 * x == x * (2.0 * r1 * l);
  }

  /** A turned unit vector is a unit vector whose dot product with the original is the cosine of the angle. */
  lemma RotatedUnit(a: real, u: Vector2D, math: MathLib)
    requires Lawful(math) && u.SquareLength() == 1.0
    ensures CreateRotation(a, math).OfVector(u).SquareLength() == 1.0
    ensures u.DotProduct(CreateRotation(a, math).OfVector(u)) == math.Cos(a)
  {
    RotationIsRigid(a, math, u);
    RotatedDot(a, u, math);
  }

  /** The dot product of a vector with itself turned by a is cos a times its square length. */
  lemma RotatedDot(a: real, u: Vector2D, math: MathLib)
    ensures u.DotProduct(CreateRotation(a, math).OfVector(u)) == math.Cos(a) * u.SquareLength()
  {
    OfVectorFormula(CreateRotation(a, math), u);
    var s, k := math.Sin(a), math.Cos(a);
    assert CreateRotation(a, math).OfVector(u) == Vector2D(u.X * k + u.Y * -s, u.X * s + u.Y * k);
  }

  /** |c2 - (c1 + r w)|^2 = l^2 - 2 l r (u . w) + r^2 for unit u, w and c2 = c1 + l u. */
  lemma LawOfCosines(c1: Point2D, c2: Point2D, u: Vector2D, w: Vector2D, l: real, r: real, x: real)
    requires u.SquareLength() == 1.0 && w.SquareLength() == 1.0 && u.DotProduct(w) == x
    requires u.Scaled(l) == Vector2D.Between(c1, c2)
    ensures c2.SquareDistanceTo(c1.Add(w.Scaled(r))) == l * l - 2.0 * l * r * x + r * r
  {
    assert c2.X == c1.X + l * u.X && c2.Y == c1.Y + l * u.Y;
    assert c2.SquareDistanceTo(c1.Add(w.Scaled(r)))
        == l * l * u.SquareLength() - 2.0 * l * r * u.DotProduct(w) + r * r * w.SquareLength();
  }
}
