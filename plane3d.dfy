/**
 * Plane3D: the plane A x + B y + C z = D, built from a normal and either the
 * right-hand side or a point, with the signed distance of a point, the
 * projection on the plane, the angle of a vector to it and its intersection
 * with a line through a point and with a segment.
 */
module Planes3D {
  import opened RealMath
  import opened Results
  import opened Primitives3D
  import opened Lines3D
  import opened Segments3D

  /** The coefficients of A x + B y + C z = D. */
  datatype Plane3D = Plane3D(A: real, B: real, C: real, D: real)
  {
    /** (A, B, C), as given. */
    function NormalVector(): Vector3D { Vector3D(A, B, C) }

    /** The normalised (A, B, C); the source divides by zero for a zero normal. */
    function Normal(math: MathLib): Vector3D
      requires NormalVector().Length(math) != 0.0
    {
      NormalVector().Normalize(math)
    }

    /** The exact equation test. */
    predicate IsCoplanar(point: Point3D)
    {
      A * point.X + B * point.Y + C * point.Z == D
    }

    /** A line lies in the plane when its direction is perpendicular to the normal and its origin is on the plane. */
    predicate IsCoplanarLine(line: Line3D, math: MathLib)
      requires NormalVector().Length(math) != 0.0
    {
      if line.Direction.DotProduct(Normal(math)) == 0.0 then IsCoplanar(line.Origin) else false
    }

    /** A x + B y + C z - D at the point. */
    function Residual(point: Point3D): real
    {
      A * point.X + B * point.Y + C * point.Z - D
    }

    /** The residual over the length of (A, B, C): positive on the side the normal points to. */
    function DistanceTo(point: Point3D, math: MathLib): real
      requires NormalVector().Length(math) != 0.0
    {
      Residual(point) / NormalVector().Length(math)
    }

    /** The point less its signed distance times the unit normal. */
    function Projection(point: Point3D, math: MathLib): ProjectionResult<Point3D>
      requires NormalVector().Length(math) != 0.0
    {
      var distance := DistanceTo(point, math);
      ProjectionResult(point.Subtract(Vector3D.Times(distance, Normal(math))), 0.0, distance)
    }

    /** Half pi less the angle between the vector and the normal. */
    function AngleTo(vector: Vector3D, math: MathLib): real
      requires NormalVector().Length(math) != 0.0
      requires vector.Length(math) != 0.0 && Normal(math).Length(math) != 0.0
    {
      0.5 * math.PI - vector.AngleTo(Normal(math), math)
    }

    /**
     * Where the line through `point` along `vector` meets the plane: the
     * point itself when it is on the plane, None when the vector is
     * perpendicular to the normal; otherwise the point is moved back along
     * the normal when the cosine reaches 1 and along the vector when not.
     */
    function Intersect(point: Point3D, vector: Vector3D, math: MathLib): Option<Point3D>
      requires NormalVector().Length(math) != 0.0
      requires DistanceTo(point, math) == 0.0 || vector.Length(math) != 0.0
    {
      var d := DistanceTo(point, math);
      if d == 0.0 then Some(point)
      else
        var cos := vector.DotProduct(Normal(math)) / vector.Length(math);
        if cos == 0.0 then None
        else if cos >= 1.0 then Some(point.Subtract(Vector3D.Times(d, Normal(math))))
        else Some(point.Subtract(Vector3D.Times(d / cos, vector.Normalize(math))))
    }

    /**
     * Intersects the line of the segment and keeps the point only when it
     * is no farther than the segment's length from either end.
     */
    function IsIntersect(segment: Segment3D, math: MathLib): (result: (bool, Option<Point3D>))
      requires NormalVector().Length(math) != 0.0
      requires DistanceTo(segment.GetPoint(0.0), math) == 0.0
        || Vector3D.Between(segment.GetPoint(0.0), segment.GetPoint(1.0)).Length(math) != 0.0
    {
      var startPoint := segment.GetPoint(0.0);
      var endPoint := segment.GetPoint(1.0);
      var vector := Vector3D.Between(startPoint, endPoint);
      var iPoint := Intersect(startPoint, vector, math);
      if iPoint.None? then (false, None)
      else
        var lengthA := iPoint.value.DistanceTo(startPoint, math);
        var lengthB := iPoint.value.DistanceTo(endPoint, math);
        if lengthA > segment.Length(math) || lengthB > segment.Length(math) then (false, None)
        else (true, iPoint)
    }
  }

  /** The coefficients verbatim: (A, B, C) is the normal and D the right-hand side. */
  function FromNormalAndDistance(normal: Vector3D, distance: real): Plane3D
  {
    Plane3D(normal.X, normal.Y, normal.Z, distance)
  }

  /** The plane through `point` with normal `normal`: D is normal . point. */
  function FromNormalAndPoint(normal: Vector3D, point: Point3D): Plane3D
  {
    Plane3D(normal.X, normal.Y, normal.Z, normal.X * point.X + normal.Y * point.Y + normal.Z * point.Z)
  }

  function PlaneXY(): Plane3D { FromNormalAndPoint(Vector3D.BasisZ(), Point3D.Zero()) }
  function PlaneYZ(): Plane3D { FromNormalAndPoint(Vector3D.BasisX(), Point3D.Zero()) }
  function PlaneZX(): Plane3D { FromNormalAndPoint(Vector3D.BasisY(), Point3D.Zero()) }

  // ---------------------------------------------------------------- construction

  /** The plane built from a normal and a point holds exactly the points q with (q - point) . normal = 0. */
  lemma FromNormalAndPointSpec(normal: Vector3D, point: Point3D, q: Point3D)
    ensures FromNormalAndPoint(normal, point).NormalVector() == normal
    ensures FromNormalAndPoint(normal, point).IsCoplanar(point)
    ensures FromNormalAndPoint(normal, point).IsCoplanar(q) <==> Vector3D.Between(point, q).DotProduct(normal) == 0.0
  {
    assert Vector3D.Between(point, q).DotProduct(normal)
      == FromNormalAndPoint(normal, point).Residual(q);
  }

  /** With a unit normal the right-hand side is how far the origin lies behind the plane. */
  lemma FromNormalAndDistanceSpec(normal: Vector3D, distance: real, math: MathLib)
    requires Lawful(math) && normal.SquareLength() == 1.0
    ensures FromNormalAndDistance(normal, distance).NormalVector() == normal
    ensures FromNormalAndDistance(normal, distance).D == distance
    ensures normal.Length(math) == 1.0
    ensures FromNormalAndDistance(normal, distance).DistanceTo(Point3D.Zero(), math) == -distance
  {
    SqrtOne(math);
    assert FromNormalAndDistance(normal, distance).Residual(Point3D.Zero()) == -distance;
  }

  /** The three coordinate planes are z = 0, x = 0 and y = 0; each holds the origin. */
  lemma CoordinatePlanes(q: Point3D)
    ensures PlaneXY().IsCoplanar(q) <==> q.Z == 0.0
    ensures PlaneYZ().IsCoplanar(q) <==> q.X == 0.0
    ensures PlaneZX().IsCoplanar(q) <==> q.Y == 0.0
    ensures PlaneXY().IsCoplanar(Point3D.Zero()) && PlaneYZ().IsCoplanar(Point3D.Zero()) && PlaneZX().IsCoplanar(Point3D.Zero())
  {
    assert PlaneXY() == Plane3D(0.0, 0.0, 1.0, 0.0);
    assert PlaneYZ() == Plane3D(1.0, 0.0, 0.0, 0.0);
    assert PlaneZX() == Plane3D(0.0, 1.0, 0.0, 0.0);
  }

  // ---------------------------------------------------------------- distance

  /** The signed distance is zero exactly on the plane and has the sign of the residual. */
  lemma DistanceSign(plane: Plane3D, p: Point3D, math: MathLib)
    requires Lawful(math) && plane.NormalVector() != Vector3D.Zero()
    ensures plane.NormalVector().Length(math) > 0.0
    ensures plane.DistanceTo(p, math) * plane.NormalVector().Length(math) == plane.Residual(p)
    ensures plane.DistanceTo(p, math) == 0.0 <==> plane.IsCoplanar(p)
    ensures plane.DistanceTo(p, math) > 0.0 <==> plane.Residual(p) > 0.0
    ensures plane.DistanceTo(p, math) < 0.0 <==> plane.Residual(p) < 0.0
  {
    LengthProperties(plane.NormalVector(), math);
    QuotientSign(plane.Residual(p), plane.NormalVector().Length(math));
  }

  /** A quotient by a positive number has the sign of the dividend. */
  lemma QuotientSign(r: real, l: real)
    requires 0.0 < l
    ensures (r / l) * l == r
    ensures r / l == 0.0 <==> r == 0.0
    ensures r / l > 0.0 <==> r > 0.0
    ensures r / l < 0.0 <==> r < 0.0
  {
    DivMul(r, l);
    if r > 0.0 {
      DivPositive(r, l);
    } else if r < 0.0 {
      DivPositive(-r, l);
      assert (-r) / l == -(r / l);
    }
  }

  /** The plane 2 z = 5 of the unit tests: on it at z = 2.5, in front at z = 15 and behind at z = 1. */
  lemma DistanceExamples(math: MathLib)
    requires Lawful(math)
    ensures FromNormalAndDistance(Vector3D.Times(2.0, Vector3D.BasisZ()), 5.0) == Plane3D(0.0, 0.0, 2.0, 5.0)
    ensures Plane3D(0.0, 0.0, 2.0, 5.0).NormalVector().Length(math) == 2.0
    ensures Plane3D(0.0, 0.0, 2.0, 5.0).DistanceTo(Point3D(1.0, 1.0, 2.5), math) == 0.0
    ensures Plane3D(0.0, 0.0, 2.0, 5.0).DistanceTo(Point3D(1.0, 1.0, 15.0), math) > 0.0
    ensures Plane3D(0.0, 0.0, 2.0, 5.0).DistanceTo(Point3D(1.0, 1.0, 1.0), math) < 0.0
  {
    SqrtOfSquare(math, 2.0);
    LengthTwo(math);
    ExampleDistances(math);
  }

  lemma LengthTwo(math: MathLib)
    requires math.Sqrt(2.0 * 2.0) == Abs(2.0)
    ensures Plane3D(0.0, 0.0, 2.0, 5.0).NormalVector().Length(math) == 2.0
  {
    assert Plane3D(0.0, 0.0, 2.0, 5.0).NormalVector().SquareLength() == 2.0 * 2.0;
  }

  lemma ExampleDistances(math: MathLib)
    requires Plane3D(0.0, 0.0, 2.0, 5.0).NormalVector().Length(math) == 2.0
    ensures Plane3D(0.0, 0.0, 2.0, 5.0).DistanceTo(Point3D(1.0, 1.0, 2.5), math) == 0.0
    ensures Plane3D(0.0, 0.0, 2.0, 5.0).DistanceTo(Point3D(1.0, 1.0, 15.0), math) > 0.0
    ensures Plane3D(0.0, 0.0, 2.0, 5.0).DistanceTo(Point3D(1.0, 1.0, 1.0), math) < 0.0
  {
    SignOfDistance(Plane3D(0.0, 0.0, 2.0, 5.0), Point3D(1.0, 1.0, 2.5), math);
    SignOfDistance(Plane3D(0.0, 0.0, 2.0, 5.0), Point3D(1.0, 1.0, 15.0), math);
    SignOfDistance(Plane3D(0.0, 0.0, 2.0, 5.0), Point3D(1.0, 1.0, 1.0), math);
  }

  /** For 2 z = 5 the signed distance has the sign of 2 z - 5. */
  lemma SignOfDistance(plane: Plane3D, p: Point3D, math: MathLib)
    requires plane == Plane3D(0.0, 0.0, 2.0, 5.0) && plane.NormalVector().Length(math) == 2.0
    ensures plane.DistanceTo(p, math) == 0.0 <==> 2.0 * p.Z == 5.0
    ensures plane.DistanceTo(p, math) > 0.0 <==> 2.0 * p.Z > 5.0
    ensures plane.DistanceTo(p, math) < 0.0 <==> 2.0 * p.Z < 5.0
  {
    assert plane.Residual(p) == 2.0 * p.Z - 5.0;
    QuotientSign(plane.Residual(p), plane.NormalVector().Length(math));
  }

  // ---------------------------------------------------------------- projection

  /** The projected point is on the plane, and the reported distance is the signed distance. */
  lemma ProjectionSpec(plane: Plane3D, p: Point3D, math: MathLib)
    requires Lawful(math) && plane.NormalVector() != Vector3D.Zero()
    ensures plane.NormalVector().Length(math) != 0.0
    ensures plane.Projection(p, math).Distance == plane.DistanceTo(p, math)
    ensures plane.IsCoplanar(plane.Projection(p, math).Point)
    ensures Vector3D.Between(plane.Projection(p, math).Point, p) == Vector3D.Times(plane.DistanceTo(p, math), plane.Normal(math))
  {
    NormalFacts(plane, math);
    AlongNormal(plane, p, math);
  }

  /** Facts about the unit normal: it is a unit vector, and (A, B, C) . Normal is the length of (A, B, C). */
  lemma NormalFacts(plane: Plane3D, math: MathLib)
    requires Lawful(math) && plane.NormalVector() != Vector3D.Zero()
    ensures plane.NormalVector().Length(math) > 0.0
    ensures plane.Normal(math).SquareLength() == 1.0
    ensures plane.Normal(math).Length(math) == 1.0
    ensures plane.NormalVector().DotProduct(plane.Normal(math)) == plane.NormalVector().Length(math)
  {
    NormalizeIsUnit(plane.NormalVector(), math);
    DotOfScaled(plane.Normal(math), plane.NormalVector().Length(math), plane.NormalVector());
  }

  /** If n scaled by l is v and n is a unit vector, then v . n is l. */
  lemma DotOfScaled(n: Vector3D, l: real, v: Vector3D)
    requires n.Scaled(l) == v && n.SquareLength() == 1.0
    ensures v.DotProduct(n) == l
  {
    assert v.DotProduct(n) == l * n.SquareLength();
  }

  /** Moving a point t along v changes the residual by t times (A, B, C) . v. */
  lemma ResidualAlong(plane: Plane3D, p: Point3D, t: real, v: Vector3D)
    ensures plane.Residual(p.Subtract(Vector3D.Times(t, v))) == plane.Residual(p) - t * plane.NormalVector().DotProduct(v)
  {
  }

  /** Moving back by the signed distance along the unit normal reaches the plane. */
  lemma AlongNormal(plane: Plane3D, p: Point3D, math: MathLib)
    requires plane.NormalVector().Length(math) != 0.0
    requires plane.NormalVector().DotProduct(plane.Normal(math)) == plane.NormalVector().Length(math)
    ensures plane.IsCoplanar(p.Subtract(Vector3D.Times(plane.DistanceTo(p, math), plane.Normal(math))))
  {
    ResidualAlong(plane, p, plane.DistanceTo(p, math), plane.Normal(math));
    DivMul(plane.Residual(p), plane.NormalVector().Length(math));
  }

  // ---------------------------------------------------------------- line in the plane

  /** A line lies in the plane exactly when its origin and the point one direction further are on it. */
  lemma CoplanarLineSpec(plane: Plane3D, line: Line3D, t: real, math: MathLib)
    requires Lawful(math) && plane.NormalVector() != Vector3D.Zero()
    ensures plane.NormalVector().Length(math) != 0.0
    ensures plane.IsCoplanarLine(line, math) <==> plane.IsCoplanar(line.Origin) && plane.IsCoplanar(line.Origin.Add(line.Direction))
    ensures plane.IsCoplanarLine(line, math) ==> plane.IsCoplanar(line.Origin.Add(Vector3D.Times(t, line.Direction)))
  {
    NormalizeIsUnit(plane.NormalVector(), math);
    PerpendicularToNormal(plane.NormalVector(), plane.Normal(math), plane.NormalVector().Length(math), line.Direction);
    ResidualAlong(plane, line.Origin, -1.0, line.Direction);
    ResidualAlong(plane, line.Origin, -t, line.Direction);
    assert line.Origin.Subtract(Vector3D.Times(-1.0, line.Direction)) == line.Origin.Add(line.Direction);
    assert line.Origin.Subtract(Vector3D.Times(-t, line.Direction)) == line.Origin.Add(Vector3D.Times(t, line.Direction));
  }

  /** A vector is perpendicular to a non-zero normal exactly when it is perpendicular to the normalised one. */
  lemma PerpendicularToNormal(n: Vector3D, u: Vector3D, l: real, v: Vector3D)
    requires l != 0.0 && u.Scaled(l) == n
    ensures v.DotProduct(u) == 0.0 <==> n.DotProduct(v) == 0.0
  {
    assert n.DotProduct(v) == l * v.DotProduct(u);
    if n.DotProduct(v) == 0.0 {
      ZeroFactor(l, v.DotProduct(u));
    }
  }

  // ---------------------------------------------------------------- angle

  /** The angle to the plane lies between -pi/2 and pi/2. */
  lemma AngleToRangeSpec(plane: Plane3D, vector: Vector3D, math: MathLib)
    requires Lawful(math) && plane.NormalVector() != Vector3D.Zero() && vector != Vector3D.Zero()
    ensures plane.NormalVector().Length(math) != 0.0 && vector.Length(math) != 0.0 && plane.Normal(math).Length(math) != 0.0
    ensures -0.5 * math.PI <= plane.AngleTo(vector, math) <= 0.5 * math.PI
  {
    NormalizeIsUnit(plane.NormalVector(), math);
    LengthProperties(vector, math);
    AngleToRange(vector, plane.Normal(math), math);
  }

  // ---------------------------------------------------------------- intersection

  /**
   * Intersect returns the point when it is on the plane, None exactly when
   * the point is off the plane and the vector is perpendicular to the
   * normal, and otherwise a point of the plane.
   */
  lemma IntersectSpec(plane: Plane3D, p: Point3D, v: Vector3D, math: MathLib)
    requires Lawful(math) && plane.NormalVector() != Vector3D.Zero()
    requires plane.IsCoplanar(p) || v != Vector3D.Zero()
    ensures plane.NormalVector().Length(math) != 0.0
    ensures plane.DistanceTo(p, math) == 0.0 || v.Length(math) != 0.0
    ensures plane.IsCoplanar(p) ==> plane.Intersect(p, v, math) == Some(p)
    ensures plane.Intersect(p, v, math).None? <==> !plane.IsCoplanar(p) && plane.NormalVector().DotProduct(v) == 0.0
    ensures plane.Intersect(p, v, math).Some? ==> plane.IsCoplanar(plane.Intersect(p, v, math).value)
  {
    DistanceSign(plane, p, math);
    NormalFacts(plane, math);
    if !plane.IsCoplanar(p) {
      LengthProperties(v, math);
      IntersectOffPlane(plane, p, v, math);
    }
  }

  lemma IntersectOffPlane(plane: Plane3D, p: Point3D, v: Vector3D, math: MathLib)
    requires plane.NormalVector().Length(math) != 0.0 && v.Length(math) != 0.0
    requires plane.DistanceTo(p, math) != 0.0
    requires plane.NormalVector().DotProduct(plane.Normal(math)) == plane.NormalVector().Length(math)
    ensures plane.Intersect(p, v, math).None? <==> plane.NormalVector().DotProduct(v) == 0.0
    ensures plane.Intersect(p, v, math).Some? ==> plane.IsCoplanar(plane.Intersect(p, v, math).value)
  {
    var n, l := plane.Normal(math), plane.NormalVector().Length(math);
    var cos := v.DotProduct(n) / v.Length(math);
    DivMul(v.DotProduct(n), v.Length(math));
    DotNormalized(v, plane.NormalVector(), math);
    assert v.DotProduct(n) * l == plane.NormalVector().DotProduct(v);
    if cos == 0.0 {
      assert v.DotProduct(n) == 0.0;
    } else {
      assert v.DotProduct(n) != 0.0;
      if plane.NormalVector().DotProduct(v) == 0.0 {
        ZeroFactor(l, v.DotProduct(n));
      }
      if cos >= 1.0 {
        AlongNormal(plane, p, math);
      } else {
        AlongVector(plane, p, v, cos, math);
      }
    }
  }

  /** w . (v normalised) times the length of v is w . v. */
  lemma DotNormalized(w: Vector3D, v: Vector3D, math: MathLib)
    requires v.Length(math) != 0.0
    ensures w.DotProduct(v.Normalize(math)) * v.Length(math) == v.DotProduct(w)
  {
    var l := v.Length(math);
    DivMul(v.X, l);
    DivMul(v.Y, l);
    DivMul(v.Z, l);
    assert w.DotProduct(v.Normalize(math)) * l == w.X * ((v.X / l) * l) + w.Y * ((v.Y / l) * l) + w.Z * ((v.Z / l) * l);
  }

  /** Off the plane and not parallel to it, moving back d / cos along the unit vector reaches the plane. */
  lemma AlongVector(plane: Plane3D, p: Point3D, v: Vector3D, cos: real, math: MathLib)
    requires plane.NormalVector().Length(math) != 0.0 && v.Length(math) != 0.0
    requires cos == v.DotProduct(plane.Normal(math)) / v.Length(math) && cos != 0.0
    requires v.DotProduct(plane.Normal(math)) * plane.NormalVector().Length(math) == plane.NormalVector().DotProduct(v)
    ensures plane.IsCoplanar(p.Subtract(Vector3D.Times(plane.DistanceTo(p, math) / cos, v.Normalize(math))))
  {
    var l, lv := plane.NormalVector().Length(math), v.Length(math);
    var d := plane.DistanceTo(p, math);
    DotNormalized(plane.NormalVector(), v, math);
    DivMul(v.DotProduct(plane.Normal(math)), lv);
    DivMul(plane.Residual(p), l);
    DivMul(d, cos);
    ResidualAlong(plane, p, d / cos, v.Normalize(math));
    StepToPlane(plane.Residual(p), d, cos, l, lv, plane.NormalVector().DotProduct(v.Normalize(math)), v.DotProduct(plane.Normal(math)));
  }

  /** The arithmetic of AlongVector on plain numbers. */
  lemma StepToPlane(r: real, d: real, cos: real, l: real, lv: real, nu: real, vn: real)
    requires lv != 0.0 && cos != 0.0
    requires d * l == r
    requires cos * lv == vn
    requires nu * lv == vn * l
    ensures r - (d / cos) * nu == 0.0
  {
    assert nu * lv == (cos * l) * lv;
    assert (nu - cos * l) * lv == 0.0;
    ZeroFactor(lv, nu - cos * l);
    DivMul(d, cos);
    assert (d / cos) * nu == ((d / cos) * cos) * l;
  }

  /** The point Intersect returns lies on the line through the given point along the vector. */
  lemma IntersectOnLine(plane: Plane3D, p: Point3D, v: Vector3D, math: MathLib)
    requires Lawful(math) && plane.NormalVector() != Vector3D.Zero()
    requires plane.IsCoplanar(p) || v != Vector3D.Zero()
    ensures plane.NormalVector().Length(math) != 0.0
    ensures plane.DistanceTo(p, math) == 0.0 || v.Length(math) != 0.0
    ensures plane.Intersect(p, v, math).Some? ==>
      Vector3D.Between(p, plane.Intersect(p, v, math).value).CrossProduct(v) == Vector3D.Zero()
  {
    DistanceSign(plane, p, math);
    NormalFacts(plane, math);
    if !plane.IsCoplanar(p) {
      NormalizeIsUnit(v, math);
      DotNormalized(plane.Normal(math), v, math);
      OffPlaneOnLine(plane, p, v, math);
    }
  }

  lemma OffPlaneOnLine(plane: Plane3D, p: Point3D, v: Vector3D, math: MathLib)
    requires plane.NormalVector().Length(math) != 0.0 && v.Length(math) != 0.0
    requires plane.DistanceTo(p, math) != 0.0
    requires plane.Normal(math).SquareLength() == 1.0
    requires v.Normalize(math).SquareLength() == 1.0 && v.Normalize(math).Scaled(v.Length(math)) == v
    requires plane.Normal(math).DotProduct(v.Normalize(math)) * v.Length(math) == v.DotProduct(plane.Normal(math))
    ensures plane.Intersect(p, v, math).Some? ==>
      Vector3D.Between(p, plane.Intersect(p, v, math).value).CrossProduct(v) == Vector3D.Zero()
  {
    var n, u, lv := plane.Normal(math), v.Normalize(math), v.Length(math);
    var d := plane.DistanceTo(p, math);
    var cos := v.DotProduct(n) / lv;
    DivMul(v.DotProduct(n), lv);
    if cos != 0.0 {
      if cos >= 1.0 {
        assert (n.DotProduct(u) - cos) * lv == 0.0;
        ZeroFactor(lv, n.DotProduct(u) - cos);
        UnitsWithCosineOne(u, n, cos);
        MovedAlongParallel(p, d, u, lv, v);
      } else {
        MovedAlongParallel(p, d / cos, u, lv, v);
      }
    }
  }

  /** Two unit vectors whose dot product is at least 1 are equal. */
  lemma UnitsWithCosineOne(u: Vector3D, n: Vector3D, c: real)
    requires u.SquareLength() == 1.0 && n.SquareLength() == 1.0
    requires n.DotProduct(u) == c && c >= 1.0
    ensures u == n
  {
    var w := u.Minus(n);
    assert SquareSum3(w.X, w.Y, w.Z) == u.SquareLength() - 2.0 * n.DotProduct(u) + n.SquareLength();
    SumOfSquares3(w.X, w.Y, w.Z);
  }

  /** Moving a point along a vector parallel to v stays on the line through it along v. */
  lemma MovedAlongParallel(p: Point3D, t: real, u: Vector3D, l: real, v: Vector3D)
    requires u.Scaled(l) == v
    ensures Vector3D.Between(p, p.Subtract(Vector3D.Times(t, u))).CrossProduct(v) == Vector3D.Zero()
  {
    assert (t * u.Y) * (l * u.Z) == (t * u.Z) * (l * u.Y);
    assert (t * u.Z) * (l * u.X) == (t * u.X) * (l * u.Z);
    assert (t * u.X) * (l * u.Y) == (t * u.Y) * (l * u.X);
  }

  /** The unit test on 2 z = 5: from (1, 0, 3) along the X axis there is no intersection. */
  lemma ParallelExample(math: MathLib)
    requires Lawful(math)
    ensures Plane3D(0.0, 0.0, 2.0, 5.0).NormalVector().Length(math) != 0.0
    ensures Vector3D.BasisX().Length(math) != 0.0
    ensures Plane3D(0.0, 0.0, 2.0, 5.0).Intersect(Point3D(1.0, 0.0, 3.0), Vector3D.BasisX(), math) == None
  {
    IntersectSpec(Plane3D(0.0, 0.0, 2.0, 5.0), Point3D(1.0, 0.0, 3.0), Vector3D.BasisX(), math);
  }

  /** For a line, the point Intersect returns from its origin along its direction is on the plane and on the line. */
  lemma IntersectLineHit(plane: Plane3D, line: Line3D, math: MathLib)
    requires Lawful(math) && plane.NormalVector() != Vector3D.Zero() && line.Direction != Vector3D.Zero()
    ensures plane.NormalVector().Length(math) != 0.0 && line.Direction.Length(math) != 0.0
    ensures plane.Intersect(line.Origin, line.Direction, math).Some? ==>
      plane.IsCoplanar(plane.Intersect(line.Origin, line.Direction, math).value) &&
      line.IsInner(plane.Intersect(line.Origin, line.Direction, math).value, math)
  {
    LengthProperties(line.Direction, math);
    IntersectSpec(plane, line.Origin, line.Direction, math);
    IntersectOnLine(plane, line.Origin, line.Direction, math);
    if plane.Intersect(line.Origin, line.Direction, math).Some? {
      AlongIsInner(line, plane.Intersect(line.Origin, line.Direction, math).value, math);
    }
  }

  /** A point whose offset from the origin is parallel to the direction is on the line. */
  lemma AlongIsInner(line: Line3D, q: Point3D, math: MathLib)
    requires Lawful(math) && Vector3D.Between(line.Origin, q).CrossProduct(line.Direction) == Vector3D.Zero()
    ensures line.IsInner(q, math)
  {
    ZeroLength(math);
  }

  /**
   * When the line is not parallel to the plane, Intersect returns the one
   * point that lies both on the plane and on the line.
   */
  lemma IntersectUnique(plane: Plane3D, p: Point3D, v: Vector3D, q: Point3D, math: MathLib)
    requires Lawful(math) && plane.NormalVector() != Vector3D.Zero() && v != Vector3D.Zero()
    requires plane.NormalVector().DotProduct(v) != 0.0
    requires plane.IsCoplanar(q) && Vector3D.Between(p, q).CrossProduct(v) == Vector3D.Zero()
    ensures plane.NormalVector().Length(math) != 0.0 && v.Length(math) != 0.0
    ensures plane.Intersect(p, v, math) == Some(q)
  {
    LengthProperties(v, math);
    IntersectSpec(plane, p, v, math);
    IntersectOnLine(plane, p, v, math);
    OnPlaneAndLine(plane, p, v, q, plane.Intersect(p, v, math).value);
  }

  /** Two points on the plane and on a line through p along v that is not parallel to it coincide. */
  lemma OnPlaneAndLine(plane: Plane3D, p: Point3D, v: Vector3D, q: Point3D, r: Point3D)
    requires plane.NormalVector().DotProduct(v) != 0.0
    requires plane.IsCoplanar(q) && Vector3D.Between(p, q).CrossProduct(v) == Vector3D.Zero()
    requires plane.IsCoplanar(r) && Vector3D.Between(p, r).CrossProduct(v) == Vector3D.Zero()
    ensures r == q
  {
    var w := Vector3D.Between(q, r);
    assert w.CrossProduct(v) == Vector3D.Between(p, r).CrossProduct(v).Minus(Vector3D.Between(p, q).CrossProduct(v));
    assert plane.NormalVector().DotProduct(w) == plane.Residual(r) - plane.Residual(q);
    CrossZeroOnPlane(w, v, plane.NormalVector());
  }

  /**
   * A vector parallel to v (zero cross product) and orthogonal to a normal n
   * that v is not orthogonal to is zero: (w × v) × n = v (w · n) - w (v · n).
   */
  lemma CrossZeroOnPlane(w: Vector3D, v: Vector3D, n: Vector3D)
    requires w.CrossProduct(v) == Vector3D.Zero() && n.DotProduct(w) == 0.0 && n.DotProduct(v) != 0.0
    ensures w == Vector3D.Zero()
  {
    var c, k := w.CrossProduct(v), n.DotProduct(v);
    assert k * w.X == n.Y * c.Z - n.Z * c.Y + v.X * n.DotProduct(w);
    assert k * w.Y == n.Z * c.X - n.X * c.Z + v.Y * n.DotProduct(w);
    assert k * w.Z == n.X * c.Y - n.Y * c.X + v.Z * n.DotProduct(w);
    ZeroFactor(k, w.X);
    ZeroFactor(k, w.Y);
    ZeroFactor(k, w.Z);
  }

  /** The unit test on 2 z = 5: from (1, 0, 0) along 2 BasisZ the line meets the plane at (1, 0, 2.5). */
  lemma VerticalExample(plane: Plane3D, p: Point3D, v: Vector3D, math: MathLib)
    requires Lawful(math)
    requires plane == Plane3D(0.0, 0.0, 2.0, 5.0) && p == Point3D(1.0, 0.0, 0.0) && v == Vector3D(0.0, 0.0, 2.0)
    ensures plane.NormalVector().Length(math) != 0.0 && v.Length(math) != 0.0
    ensures plane.Intersect(p, v, math) == Some(Point3D(1.0, 0.0, 2.5))
  {
    VerticalFacts(plane, p, v, Point3D(1.0, 0.0, 2.5));
    IntersectUnique(plane, p, v, Point3D(1.0, 0.0, 2.5), math);
  }

  /** The hypotheses of IntersectUnique for the unit test on 2 z = 5. */
  lemma VerticalFacts(plane: Plane3D, p: Point3D, v: Vector3D, q: Point3D)
    requires plane == Plane3D(0.0, 0.0, 2.0, 5.0) && p == Point3D(1.0, 0.0, 0.0) && v == Vector3D(0.0, 0.0, 2.0)
    requires q == Point3D(1.0, 0.0, 2.5)
    ensures plane.NormalVector() != Vector3D.Zero() && v != Vector3D.Zero()
    ensures plane.NormalVector().DotProduct(v) != 0.0
    ensures plane.IsCoplanar(q) && Vector3D.Between(p, q).CrossProduct(v) == Vector3D.Zero()
  {
  }

  /** The hypotheses of IntersectUnique for the tilted unit test. */
  lemma TiltedFacts(plane: Plane3D, p: Point3D, v: Vector3D, q: Point3D)
    requires plane == Plane3D(1.0, 0.0, 1.0, 1.0) && p == Point3D(1.0, 0.0, 1.0) && v == Vector3D.BasisZ()
    requires q == Point3D(1.0, 0.0, 0.0)
    ensures plane.NormalVector() != Vector3D.Zero() && v != Vector3D.Zero()
    ensures plane.NormalVector().DotProduct(v) != 0.0
    ensures plane.IsCoplanar(q) && Vector3D.Between(p, q).CrossProduct(v) == Vector3D.Zero()
  {
  }

  /** The plane of the tilted unit tests: through (1, 0, 0) with normal (1, 0, 1). */
  lemma TiltedPlane()
    ensures FromNormalAndPoint(Vector3D(1.0, 0.0, 1.0), Point3D(1.0, 0.0, 0.0)) == Plane3D(1.0, 0.0, 1.0, 1.0)
  {
  }

  /** The tilted unit test: from (1, 0, 1) along (1, 0, -1) there is no intersection. */
  lemma TiltedParallelExample(math: MathLib)
    requires Lawful(math)
    ensures Plane3D(1.0, 0.0, 1.0, 1.0).NormalVector().Length(math) != 0.0
    ensures Vector3D(1.0, 0.0, -1.0).Length(math) != 0.0
    ensures Plane3D(1.0, 0.0, 1.0, 1.0).Intersect(Point3D(1.0, 0.0, 1.0), Vector3D(1.0, 0.0, -1.0), math) == None
  {
    IntersectSpec(Plane3D(1.0, 0.0, 1.0, 1.0), Point3D(1.0, 0.0, 1.0), Vector3D(1.0, 0.0, -1.0), math);
  }

  /** The tilted unit test: from (1, 0, 1) along BasisZ the line meets the plane at (1, 0, 0). */
  lemma TiltedExample(plane: Plane3D, p: Point3D, v: Vector3D, math: MathLib)
    requires Lawful(math)
    requires plane == Plane3D(1.0, 0.0, 1.0, 1.0) && p == Point3D(1.0, 0.0, 1.0) && v == Vector3D.BasisZ()
    ensures plane.NormalVector().Length(math) != 0.0 && v.Length(math) != 0.0
    ensures plane.Intersect(p, v, math) == Some(Point3D(1.0, 0.0, 0.0))
  {
    TiltedFacts(plane, p, v, Point3D(1.0, 0.0, 0.0));
    IntersectUnique(plane, p, v, Point3D(1.0, 0.0, 0.0), math);
  }

  // ---------------------------------------------------------------- segment

  /**
   * IsIntersect reports true together with a point exactly when Intersect
   * finds one no farther than the segment's length from either end; that
   * point is on the plane.
   */
  lemma IsIntersectSpec(plane: Plane3D, segment: Segment3D, math: MathLib)
    requires Lawful(math) && plane.NormalVector() != Vector3D.Zero()
    requires plane.IsCoplanar(segment.StartPoint) || segment.StartPoint != segment.EndPoint
    ensures plane.NormalVector().Length(math) != 0.0
    ensures plane.DistanceTo(segment.GetPoint(0.0), math) == 0.0
      || Vector3D.Between(segment.GetPoint(0.0), segment.GetPoint(1.0)).Length(math) != 0.0
    ensures plane.IsIntersect(segment, math).0 <==> plane.IsIntersect(segment, math).1.Some?
    ensures plane.IsIntersect(segment, math).0 ==>
      && plane.IsIntersect(segment, math).1 == plane.Intersect(segment.StartPoint, segment.Span(), math)
      && plane.IsCoplanar(plane.IsIntersect(segment, math).1.value)
      && plane.IsIntersect(segment, math).1.value.DistanceTo(segment.StartPoint, math) <= segment.Length(math)
      && plane.IsIntersect(segment, math).1.value.DistanceTo(segment.EndPoint, math) <= segment.Length(math)
    ensures var hit := plane.Intersect(segment.StartPoint, segment.Span(), math);
      hit.Some? && hit.value.DistanceTo(segment.StartPoint, math) <= segment.Length(math)
        && hit.value.DistanceTo(segment.EndPoint, math) <= segment.Length(math)
      ==> plane.IsIntersect(segment, math) == (true, hit)
  {
    GetPointSpec(segment, 0.0);
    BetweenProperties(segment.StartPoint, segment.EndPoint);
    IntersectSpec(plane, segment.StartPoint, segment.Span(), math);
    LengthProperties(segment.Span(), math);
  }
}
