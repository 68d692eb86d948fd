/**
 * Triangle3D: three vertices in space, with the orientation seen from +Z,
 * the supporting plane, the circumcentre, the coplanarity test, the
 * containment tests and the intersection with a segment.
 */
module Triangles3D {
  import opened RealMath
  import opened Results
  import opened Matrices
  import opened Primitives2D
  import opened Primitives3D
  import opened Segments3D
  import opened Planes3D
  import Triangles2D

  datatype Triangle3D = Triangle3D(V1: Point3D, V2: Point3D, V3: Point3D)
  {
    /** The edge vector from the first vertex to the second. */
    function EdgeA(): Vector3D { Vector3D.Between(V1, V2) }

    /** The edge vector from the first vertex to the third. */
    function EdgeB(): Vector3D { Vector3D.Between(V1, V3) }

    /** Counter-clockwise seen from +Z: only the X and Y components take part. */
    predicate IsCounterClockwise()
    {
      EdgeA().X * EdgeB().Y > EdgeA().Y * EdgeB().X
    }

    /** The cross product of the edges, before normalisation. */
    function NormalVector(): Vector3D { EdgeA().CrossProduct(EdgeB()) }

    /** The unit normal; the source divides by zero for collinear vertices. */
    function Normal(math: MathLib): Vector3D
      requires NormalVector().Length(math) != 0.0
    {
      NormalVector().Normalize(math)
    }

    /** The plane through the first vertex with the unit normal. */
    function Plane(math: MathLib): Plane3D
      requires NormalVector().Length(math) != 0.0
    {
      FromNormalAndPoint(Normal(math), V1)
    }

    /** The equation a1 x + b1 y + c1 z + d1 = 0 of the plane of the vertices, as the source expands it. */
    function PlaneRow(): Row
    {
      Row(V1.Y * V2.Z - V2.Y * V1.Z - V1.Y * V3.Z + V3.Y * V1.Z + V2.Y * V3.Z - V3.Y * V2.Z,
          -(V1.X * V2.Z - V2.X * V1.Z - V1.X * V3.Z + V3.X * V1.Z + V2.X * V3.Z - V3.X * V2.Z),
          V1.X * V2.Y - V2.X * V1.Y - V1.X * V3.Y + V3.X * V1.Y + V2.X * V3.Y - V3.X * V2.Y,
          -(V1.X * V2.Y * V3.Z - V1.X * V3.Y * V2.Z - V2.X * V1.Y * V3.Z + V2.X * V3.Y * V1.Z + V3.X * V1.Y * V2.Z - V3.X * V2.Y * V1.Z))
    }

    /** The determinant of the circumcentre's system; the source divides by it. */
    function CircumDenominator(): real
    {
      RowsDeterminant(PlaneRow(), BisectorRow(V1, V2), BisectorRow(V1, V3))
    }

    /** The common point of the plane of the vertices and the bisector planes of v1v2 and v1v3. */
    function CircumCenter(): Point3D
      requires CircumDenominator() != 0.0
    {
      SolveRows(PlaneRow(), BisectorRow(V1, V2), BisectorRow(V1, V3))
    }

    /** The matrix whose columns run from `point` to the three vertices. */
    function CoplanarMatrix(point: Point3D): Mat
    {
      var va, vb, vc := Vector3D.Between(point, V1), Vector3D.Between(point, V2), Vector3D.Between(point, V3);
      Mat(3, 3, [[va.X, vb.X, vc.X], [va.Y, vb.Y, vc.Y], [va.Z, vb.Z, vc.Z]])
    }

    /** Coplanar when that matrix's determinant is below the tolerance in magnitude. */
    predicate IsCoplanar(point: Point3D)
    {
      Abs(Det(CoplanarMatrix(point))) < Tolerance
    }

    /**
     * Inside when coplanar and the angles subtended at `point` by the three
     * sides add up to a full turn, within the tolerance; the angles need
     * `point` to differ from every vertex.
     */
    predicate IsInner(point: Point3D, math: MathLib)
      requires IsCoplanar(point) ==>
        && Vector3D.Between(point, V1).Length(math) != 0.0
        && Vector3D.Between(point, V2).Length(math) != 0.0
        && Vector3D.Between(point, V3).Length(math) != 0.0
    {
      if IsCoplanar(point) then
        var va, vb, vc := Vector3D.Between(point, V1), Vector3D.Between(point, V2), Vector3D.Between(point, V3);
        Abs(va.AngleTo(vb, math) + vb.AngleTo(vc, math) + vc.AngleTo(va, math) - 2.0 * math.PI) < Tolerance
      else false
    }

    /** The offset from the first vertex to `point`, with Z dropped. */
    function FlatOffset(point: Point3D): Vector3D { Vector3D(point.X - V1.X, point.Y - V1.Y, 0.0) }

    /** The first edge with Z dropped. */
    function FlatEdgeA(): Vector3D { Vector3D(V2.X - V1.X, V2.Y - V1.Y, 0.0) }

    /** The second edge with Z dropped. */
    function FlatEdgeB(): Vector3D { Vector3D(V3.X - V1.X, V3.Y - V1.Y, 0.0) }

    /** The Gram determinant of the flattened edges: the denominator of the projected weights. */
    function ProjectedGram(): real
    {
      FlatEdgeA().DotProduct(FlatEdgeA()) * FlatEdgeB().DotProduct(FlatEdgeB())
        - FlatEdgeB().DotProduct(FlatEdgeA()) * FlatEdgeA().DotProduct(FlatEdgeB())
    }

    /** The barycentric weight of the second vertex, in the XY projection. */
    function ProjectedU(point: Point3D): real
      requires ProjectedGram() != 0.0
    {
      (FlatOffset(point).DotProduct(FlatEdgeA()) * FlatEdgeB().DotProduct(FlatEdgeB())
        - FlatOffset(point).DotProduct(FlatEdgeB()) * FlatEdgeB().DotProduct(FlatEdgeA()))
      / ProjectedGram()
    }

    /** The barycentric weight of the third vertex, in the XY projection. */
    function ProjectedV(point: Point3D): real
      requires ProjectedGram() != 0.0
    {
      (FlatOffset(point).DotProduct(FlatEdgeB()) * FlatEdgeA().DotProduct(FlatEdgeA())
        - FlatOffset(point).DotProduct(FlatEdgeA()) * FlatEdgeA().DotProduct(FlatEdgeB()))
      / (FlatEdgeB().DotProduct(FlatEdgeB()) * FlatEdgeA().DotProduct(FlatEdgeA())
        - FlatEdgeA().DotProduct(FlatEdgeB()) * FlatEdgeB().DotProduct(FlatEdgeA()))
    }

    /** The barycentric containment test applied to the XY projections. */
    predicate IsProjectionInner(point: Point3D, edge: bool := true)
      requires ProjectedGram() != 0.0
    {
      if ProjectedU(point) >= 0.0 && ProjectedV(point) >= 0.0 && ProjectedU(point) + ProjectedV(point) <= 1.0 then
        if ProjectedU(point) == 0.0 || ProjectedV(point) == 0.0 || ProjectedU(point) + ProjectedV(point) == 1.0 then edge else true
      else false
    }

    /**
     * The hit of the segment with the plane, reported with true when the
     * plane meets the segment there and the hit projects into the triangle;
     * otherwise false and no point. A hit that IsIntersect reports always
     * carries its point.
     */
    function Intersect(segment: Segment3D, edge: bool, math: MathLib): (bool, Option<Point3D>)
      requires NormalVector().Length(math) != 0.0
      requires Plane(math).NormalVector().Length(math) != 0.0
      requires Plane(math).DistanceTo(segment.GetPoint(0.0), math) == 0.0
        || Vector3D.Between(segment.GetPoint(0.0), segment.GetPoint(1.0)).Length(math) != 0.0
      requires Plane(math).IsIntersect(segment, math).0 ==> ProjectedGram() != 0.0
    {
      var hit := Plane(math).IsIntersect(segment, math);
      if hit.0 && hit.1.Some? && IsProjectionInner(hit.1.value, edge) then (true, hit.1) else (false, None)
    }

    /** The triangle of the XY projections of the vertices. */
    function Flat(): Triangles2D.Triangle2D
    {
      Triangles2D.Triangle2D(FlatPoint(V1), FlatPoint(V2), FlatPoint(V3))
    }
  }

  /** The XY projection of a point. */
  function FlatPoint(p: Point3D): Point2D { Point2D(p.X, p.Y) }

  /** The coefficients of the plane equation A x + B y + C z + D = 0. */
  datatype Row = Row(A: real, B: real, C: real, D: real)

  /** The left-hand side of the equation `r` at `p`. */
  function RowValue(r: Row, p: Point3D): real
  {
    r.A * p.X + r.B * p.Y + r.C * p.Z + r.D
  }

  /** `p` satisfies the equation `r`. */
  predicate Satisfies(r: Row, p: Point3D)
  {
    RowValue(r, p) == 0.0
  }

  /** The bisector plane of pq: 2 (q - p) . x + |p|^2 - |q|^2 = 0. */
  function BisectorRow(p: Point3D, q: Point3D): Row
  {
    Row(2.0 * (q.X - p.X), 2.0 * (q.Y - p.Y), 2.0 * (q.Z - p.Z),
        p.X * p.X + p.Y * p.Y + p.Z * p.Z - q.X * q.X - q.Y * q.Y - q.Z * q.Z)
  }

  /** The determinant of the coefficients (A, B, C) of three equations. */
  function RowsDeterminant(r1: Row, r2: Row, r3: Row): real
  {
    r1.A * r2.B * r3.C - r1.A * r3.B * r2.C - r2.A * r1.B * r3.C
      + r2.A * r3.B * r1.C + r3.A * r1.B * r2.C - r3.A * r2.B * r1.C
  }

  /** Cramer's numerator of x, with the sign the source puts in front of it. */
  function NumeratorX(r1: Row, r2: Row, r3: Row): real
  {
    r1.B * r2.C * r3.D - r1.B * r3.C * r2.D - r2.B * r1.C * r3.D + r2.B * r3.C * r1.D + r3.B * r1.C * r2.D - r3.B * r2.C * r1.D
  }

  /** Cramer's numerator of y. */
  function NumeratorY(r1: Row, r2: Row, r3: Row): real
  {
    r1.A * r2.C * r3.D - r1.A * r3.C * r2.D - r2.A * r1.C * r3.D + r2.A * r3.C * r1.D + r3.A * r1.C * r2.D - r3.A * r2.C * r1.D
  }

  /** Cramer's numerator of z, with the sign the source puts in front of it. */
  function NumeratorZ(r1: Row, r2: Row, r3: Row): real
  {
    r1.A * r2.B * r3.D - r1.A * r3.B * r2.D - r2.A * r1.B * r3.D + r2.A * r3.B * r1.D + r3.A * r1.B * r2.D - r3.A * r2.B * r1.D
  }

  /** The solution of three plane equations by Cramer's rule, as the source writes it. */
  function SolveRows(r1: Row, r2: Row, r3: Row): Point3D
    requires RowsDeterminant(r1, r2, r3) != 0.0
  {
    Point3D(-NumeratorX(r1, r2, r3) / RowsDeterminant(r1, r2, r3),
            NumeratorY(r1, r2, r3) / RowsDeterminant(r1, r2, r3),
            -NumeratorZ(r1, r2, r3) / RowsDeterminant(r1, r2, r3))
  }

  /** The first equation, evaluated at Cramer's numerators, vanishes: a determinant with a repeated row. */
  lemma CramerFirstRowVanishes(r1: Row, r2: Row, r3: Row)
    ensures r1.A * -NumeratorX(r1, r2, r3) + r1.B * NumeratorY(r1, r2, r3) + r1.C * -NumeratorZ(r1, r2, r3) + r1.D * RowsDeterminant(r1, r2, r3) == 0.0
  {
  }

  /** The second equation, evaluated at Cramer's numerators, vanishes. */
  lemma CramerSecondRowVanishes(r1: Row, r2: Row, r3: Row)
    ensures r2.A * -NumeratorX(r1, r2, r3) + r2.B * NumeratorY(r1, r2, r3) + r2.C * -NumeratorZ(r1, r2, r3) + r2.D * RowsDeterminant(r1, r2, r3) == 0.0
  {
  }

  /** The third equation, evaluated at Cramer's numerators, vanishes. */
  lemma CramerThirdRowVanishes(r1: Row, r2: Row, r3: Row)
    ensures r3.A * -NumeratorX(r1, r2, r3) + r3.B * NumeratorY(r1, r2, r3) + r3.C * -NumeratorZ(r1, r2, r3) + r3.D * RowsDeterminant(r1, r2, r3) == 0.0
  {
  }

  /** An equation whose value, scaled by the determinant, is the vanishing combination holds at the quotient point. */
  lemma ScaledRowHolds(r: Row, q: Point3D, det: real, nx: real, ny: real, nz: real)
    requires det != 0.0 && q == Point3D(-nx / det, ny / det, -nz / det)
    requires r.A * -nx + r.B * ny + r.C * -nz + r.D * det == 0.0
    ensures Satisfies(r, q)
  {
    DivMul(-nx, det);
    DivMul(ny, det);
    DivMul(-nz, det);
    assert RowValue(r, q) * det == r.A * ((-nx / det) * det) + r.B * ((ny / det) * det) + r.C * ((-nz / det) * det) + r.D * det;
    ZeroFactor(det, RowValue(r, q));
  }

  /** Cramer's point satisfies all three equations. */
  lemma SolveRowsSolves(r1: Row, r2: Row, r3: Row, q: Point3D)
    requires RowsDeterminant(r1, r2, r3) != 0.0 && q == SolveRows(r1, r2, r3)
    ensures Satisfies(r1, q) && Satisfies(r2, q) && Satisfies(r3, q)
  {
    var det, nx, ny, nz := RowsDeterminant(r1, r2, r3), NumeratorX(r1, r2, r3), NumeratorY(r1, r2, r3), NumeratorZ(r1, r2, r3);
    CramerFirstRowVanishes(r1, r2, r3);
    CramerSecondRowVanishes(r1, r2, r3);
    CramerThirdRowVanishes(r1, r2, r3);
    ScaledRowHolds(r1, q, det, nx, ny, nz);
    ScaledRowHolds(r2, q, det, nx, ny, nz);
    ScaledRowHolds(r3, q, det, nx, ny, nz);
  }

  /** Combining the equations with the cofactors of the A column isolates x. */
  lemma CofactorsX(r1: Row, r2: Row, r3: Row, p: Point3D)
    ensures (r2.B * r3.C - r3.B * r2.C) * RowValue(r1, p) - (r1.B * r3.C - r3.B * r1.C) * RowValue(r2, p)
      + (r1.B * r2.C - r2.B * r1.C) * RowValue(r3, p) == p.X * RowsDeterminant(r1, r2, r3) + NumeratorX(r1, r2, r3)
  {
  }

  /** Combining the equations with the cofactors of the B column isolates y. */
  lemma CofactorsY(r1: Row, r2: Row, r3: Row, p: Point3D)
    ensures -(r2.A * r3.C - r3.A * r2.C) * RowValue(r1, p) + (r1.A * r3.C - r3.A * r1.C) * RowValue(r2, p)
      - (r1.A * r2.C - r2.A * r1.C) * RowValue(r3, p) == p.Y * RowsDeterminant(r1, r2, r3) - NumeratorY(r1, r2, r3)
  {
  }

  /** Combining the equations with the cofactors of the C column isolates z. */
  lemma CofactorsZ(r1: Row, r2: Row, r3: Row, p: Point3D)
    ensures (r2.A * r3.B - r3.A * r2.B) * RowValue(r1, p) - (r1.A * r3.B - r3.A * r1.B) * RowValue(r2, p)
      + (r1.A * r2.B - r2.A * r1.B) * RowValue(r3, p) == p.Z * RowsDeterminant(r1, r2, r3) + NumeratorZ(r1, r2, r3)
  {
  }

  /** With a non-zero determinant, a point satisfying all three equations is Cramer's point. */
  lemma SolveRowsUnique(r1: Row, r2: Row, r3: Row, p: Point3D)
    requires RowsDeterminant(r1, r2, r3) != 0.0
    requires Satisfies(r1, p) && Satisfies(r2, p) && Satisfies(r3, p)
    ensures p == SolveRows(r1, r2, r3)
  {
    var det := RowsDeterminant(r1, r2, r3);
    CofactorsX(r1, r2, r3, p);
    CofactorsY(r1, r2, r3, p);
    CofactorsZ(r1, r2, r3, p);
    DivUnique(-NumeratorX(r1, r2, r3), det, p.X);
    DivUnique(NumeratorY(r1, r2, r3), det, p.Y);
    DivUnique(-NumeratorZ(r1, r2, r3), det, p.Z);
  }

  // ---------------------------------------------------------------- plane and circumcentre

  /** The source's expanded plane row is the cross product of the edges, with the offset of the first vertex. */
  lemma PlaneRowIsNormal(t: Triangle3D)
    ensures t.PlaneRow() == Row(t.NormalVector().X, t.NormalVector().Y, t.NormalVector().Z,
                                -t.NormalVector().DotProduct(t.V1.Vector()))
  {
  }

  /** A point satisfies the plane row exactly when its offset from the first vertex is perpendicular to the normal. */
  lemma PlaneRowSpec(t: Triangle3D, o: Point3D)
    ensures Satisfies(t.PlaneRow(), o) <==> Vector3D.Between(t.V1, o).DotProduct(t.NormalVector()) == 0.0
  {
    PlaneRowIsNormal(t);
    assert RowValue(t.PlaneRow(), o) == Vector3D.Between(t.V1, o).DotProduct(t.NormalVector());
  }

  /** A point satisfies the bisector row of pq exactly when it is as far from p as from q. */
  lemma BisectorRowSpec(p: Point3D, q: Point3D, o: Point3D)
    ensures Satisfies(BisectorRow(p, q), o) <==> o.SquareDistanceTo(p) == o.SquareDistanceTo(q)
  {
    assert RowValue(BisectorRow(p, q), o) == o.SquareDistanceTo(p) - o.SquareDistanceTo(q);
  }

  /** The determinant of a row along n and rows along twice a and twice b is four times the triple product. */
  lemma ScaledTripleProduct(n: Vector3D, a: Vector3D, b: Vector3D, d1: real, d2: real, d3: real)
    ensures RowsDeterminant(Row(n.X, n.Y, n.Z, d1), Row(2.0 * a.X, 2.0 * a.Y, 2.0 * a.Z, d2), Row(2.0 * b.X, 2.0 * b.Y, 2.0 * b.Z, d3))
      == 4.0 * n.DotProduct(a.CrossProduct(b))
  {
  }

  /**
   * The circumcentre's determinant is four times the squared length of the
   * normal vector, so the source divides by zero exactly for collinear vertices.
   */
  lemma CircumDenominatorSpec(t: Triangle3D)
    ensures t.CircumDenominator() == 4.0 * t.NormalVector().SquareLength()
    ensures t.CircumDenominator() != 0.0 <==> t.NormalVector() != Vector3D.Zero()
  {
    CircumDenominatorIsTriple(t);
    FourSquares(t.NormalVector(), t.CircumDenominator());
  }

  /** Four times a vector's dot product with itself is four times its squared length, zero only for the zero vector. */
  lemma FourSquares(n: Vector3D, d: real)
    requires d == 4.0 * n.DotProduct(n)
    ensures d == 4.0 * n.SquareLength()
    ensures d != 0.0 <==> n != Vector3D.Zero()
  {
    SumOfSquares3(n.X, n.Y, n.Z);
  }

  /** The circumcentre's determinant is four times the triple product of the normal vector with the edges. */
  lemma CircumDenominatorIsTriple(t: Triangle3D)
    ensures t.CircumDenominator() == 4.0 * t.NormalVector().DotProduct(t.EdgeA().CrossProduct(t.EdgeB()))
  {
    var n, a, b := t.NormalVector(), t.EdgeA(), t.EdgeB();
    var r1, r2, r3 := t.PlaneRow(), BisectorRow(t.V1, t.V2), BisectorRow(t.V1, t.V3);
    assert r1 == Row(n.X, n.Y, n.Z, r1.D) by { PlaneRowIsNormal(t); }
    assert r2 == Row(2.0 * a.X, 2.0 * a.Y, 2.0 * a.Z, r2.D);
    assert r3 == Row(2.0 * b.X, 2.0 * b.Y, 2.0 * b.Z, r3.D);
    ScaledTripleProduct(n, a, b, r1.D, r2.D, r3.D);
  }

  /** The circumcentre is equally far from the three vertices and lies in their plane. */
  lemma CircumCenterSpec(t: Triangle3D)
    requires t.CircumDenominator() != 0.0
    ensures t.CircumCenter().SquareDistanceTo(t.V1) == t.CircumCenter().SquareDistanceTo(t.V2)
    ensures t.CircumCenter().SquareDistanceTo(t.V1) == t.CircumCenter().SquareDistanceTo(t.V3)
    ensures Vector3D.Between(t.V1, t.CircumCenter()).DotProduct(t.NormalVector()) == 0.0
  {
    var c := t.CircumCenter();
    SolveRowsSolves(t.PlaneRow(), BisectorRow(t.V1, t.V2), BisectorRow(t.V1, t.V3), c);
    PlaneRowSpec(t, c);
    BisectorRowSpec(t.V1, t.V2, c);
    BisectorRowSpec(t.V1, t.V3, c);
  }

  /** Any point of the plane equally far from the three vertices is the circumcentre. */
  lemma CircumCenterUnique(t: Triangle3D, o: Point3D)
    requires t.CircumDenominator() != 0.0
    requires o.SquareDistanceTo(t.V1) == o.SquareDistanceTo(t.V2)
    requires o.SquareDistanceTo(t.V1) == o.SquareDistanceTo(t.V3)
    requires Vector3D.Between(t.V1, o).DotProduct(t.NormalVector()) == 0.0
    ensures o == t.CircumCenter()
  {
    PlaneRowSpec(t, o);
    BisectorRowSpec(t.V1, t.V2, o);
    BisectorRowSpec(t.V1, t.V3, o);
    SolveRowsUnique(t.PlaneRow(), BisectorRow(t.V1, t.V2), BisectorRow(t.V1, t.V3), o);
  }

  /** The edges are perpendicular to the normal vector. */
  lemma EdgesPerpendicular(t: Triangle3D)
    ensures t.EdgeA().DotProduct(t.NormalVector()) == 0.0
    ensures t.EdgeB().DotProduct(t.NormalVector()) == 0.0
  {
    CrossPerpendicularLeft(t.EdgeA(), t.EdgeB());
    CrossPerpendicularRight(t.EdgeA(), t.EdgeB());
  }

  /** A point is on the triangle's plane exactly when its offset from the first vertex is perpendicular to the normal vector. */
  lemma PlaneSpec(t: Triangle3D, p: Point3D, math: MathLib)
    requires Lawful(math) && t.NormalVector() != Vector3D.Zero()
    ensures t.NormalVector().Length(math) != 0.0
    ensures t.Plane(math).NormalVector() == t.Normal(math)
    ensures t.Plane(math).NormalVector().SquareLength() == 1.0
    ensures t.Plane(math).IsCoplanar(p) <==> Vector3D.Between(t.V1, p).DotProduct(t.NormalVector()) == 0.0
  {
    var n := t.NormalVector();
    Primitives3D.NormalizeIsUnit(n, math);
    FromNormalAndPointSpec(t.Normal(math), t.V1, p);
    DotNormalized(Vector3D.Between(t.V1, p), n, math);
    assert Vector3D.Between(t.V1, p).DotProduct(t.Normal(math)) * n.Length(math) == n.DotProduct(Vector3D.Between(t.V1, p));
    if n.DotProduct(Vector3D.Between(t.V1, p)) == 0.0 {
      ZeroFactor(n.Length(math), Vector3D.Between(t.V1, p).DotProduct(t.Normal(math)));
    }
  }

  /** The three vertices lie on the triangle's plane. */
  lemma PlaneHoldsVertices(t: Triangle3D, math: MathLib)
    requires Lawful(math) && t.NormalVector() != Vector3D.Zero()
    ensures t.NormalVector().Length(math) != 0.0
    ensures t.Plane(math).IsCoplanar(t.V1) && t.Plane(math).IsCoplanar(t.V2) && t.Plane(math).IsCoplanar(t.V3)
  {
    EdgesPerpendicular(t);
    PlaneSpec(t, t.V1, math);
    PlaneSpec(t, t.V2, math);
    PlaneSpec(t, t.V3, math);
  }

  // ---------------------------------------------------------------- coplanarity

  /** The determinant of the offsets from p to the vertices is minus the triple product of (p - v1) with the edges. */
  lemma OffsetsDeterminant(p: Point3D, v1: Point3D, v2: Point3D, v3: Point3D)
    ensures Det3(v1.X - p.X, v2.X - p.X, v3.X - p.X, v1.Y - p.Y, v2.Y - p.Y, v3.Y - p.Y, v1.Z - p.Z, v2.Z - p.Z, v3.Z - p.Z)
      == -Vector3D.Between(v1, p).DotProduct(Vector3D.Between(v1, v2).CrossProduct(Vector3D.Between(v1, v3)))
  {
  }

  /**
   * The coplanarity determinant is minus the residual of `p` against the
   * normal vector, so the test accepts exactly the points whose residual is
   * below the tolerance; the vertices always pass.
   */
  lemma IsCoplanarSpec(t: Triangle3D, p: Point3D)
    ensures Det(t.CoplanarMatrix(p)) == -Vector3D.Between(t.V1, p).DotProduct(t.NormalVector())
    ensures t.IsCoplanar(p) <==> Abs(Vector3D.Between(t.V1, p).DotProduct(t.NormalVector())) < Tolerance
  {
    DetThreeByThree(t.CoplanarMatrix(p));
    OffsetsDeterminant(p, t.V1, t.V2, t.V3);
  }

  /** Every vertex passes the coplanarity test. */
  lemma VerticesCoplanar(t: Triangle3D)
    ensures t.IsCoplanar(t.V1) && t.IsCoplanar(t.V2) && t.IsCoplanar(t.V3)
  {
    EdgesPerpendicular(t);
    IsCoplanarSpec(t, t.V1);
    IsCoplanarSpec(t, t.V2);
    IsCoplanarSpec(t, t.V3);
  }

  /** A point exactly on the triangle's plane passes the coplanarity test. */
  lemma PlanePointsCoplanar(t: Triangle3D, p: Point3D, math: MathLib)
    requires Lawful(math) && t.NormalVector() != Vector3D.Zero()
    ensures t.NormalVector().Length(math) != 0.0
    ensures t.Plane(math).IsCoplanar(p) ==> t.IsCoplanar(p)
  {
    PlaneSpec(t, p, math);
    IsCoplanarSpec(t, p);
  }

  /** Inside in the angle sense implies a residual against the normal vector below the tolerance. */
  lemma IsInnerIsCoplanar(t: Triangle3D, p: Point3D, math: MathLib)
    requires t.IsCoplanar(p) ==>
      && Vector3D.Between(p, t.V1).Length(math) != 0.0
      && Vector3D.Between(p, t.V2).Length(math) != 0.0
      && Vector3D.Between(p, t.V3).Length(math) != 0.0
    ensures t.IsInner(p, math) ==> Abs(Vector3D.Between(t.V1, p).DotProduct(t.NormalVector())) < Tolerance
  {
    IsCoplanarSpec(t, p);
  }

  // ---------------------------------------------------------------- orientation and projection

  /**
   * Counter-clockwise seen from +Z exactly when the normal vector points up;
   * swapping two vertices reverses that unless the triangle is seen edge-on,
   * and the answer is the one for the flattened triangle.
   */
  lemma CounterClockwiseSpec(t: Triangle3D)
    ensures t.IsCounterClockwise() <==> t.NormalVector().Z > 0.0
    ensures Triangle3D(t.V1, t.V3, t.V2).IsCounterClockwise() <==> t.NormalVector().Z < 0.0
    ensures t.IsCounterClockwise() <==> t.Flat().IsCounterClockwise()
  {
  }

  /** A dot product of vectors with no Z component is the dot product of their XY parts. */
  lemma FlatDot(v: Vector3D, w: Vector3D)
    requires v.Z == 0.0 && w.Z == 0.0
    ensures v.DotProduct(w) == Vector2D(v.X, v.Y).DotProduct(Vector2D(w.X, w.Y))
  {
  }

  /**
   * The projected weights and containment test are those of the flattened
   * triangle at the flattened point.
   */
  lemma ProjectionIsFlat(t: Triangle3D, point: Point3D, edge: bool)
    ensures t.ProjectedGram() == t.Flat().Gram()
    ensures t.ProjectedGram() != 0.0 ==>
      && t.ProjectedU(point) == t.Flat().U(FlatPoint(point))
      && t.ProjectedV(point) == t.Flat().V(FlatPoint(point))
      && (t.IsProjectionInner(point, edge) <==> t.Flat().IsInner(FlatPoint(point), edge))
  {
    var f, a, b, o := t.Flat(), t.FlatEdgeA(), t.FlatEdgeB(), t.FlatOffset(point);
    assert f.EdgeA() == Vector2D(a.X, a.Y) && f.EdgeB() == Vector2D(b.X, b.Y);
    assert Vector2D.Between(f.V1, FlatPoint(point)) == Vector2D(o.X, o.Y);
    FlatDot(a, a);
    FlatDot(b, b);
    FlatDot(a, b);
    FlatDot(b, a);
    FlatDot(o, a);
    FlatDot(o, b);
  }

  /** The projected Gram determinant is the square of the normal's Z component: zero exactly for a vertical triangle. */
  lemma ProjectedGramSpec(t: Triangle3D)
    ensures t.ProjectedGram() == t.NormalVector().Z * t.NormalVector().Z
    ensures t.ProjectedGram() != 0.0 <==> t.NormalVector().Z != 0.0
  {
    ProjectionIsFlat(t, t.V1, true);
    Triangles2D.GramIsCrossSquared(t.Flat());
    assert t.Flat().EdgeA().Cross(t.Flat().EdgeB()) == t.NormalVector().Z;
  }

  /**
   * With `point`'s XY offset from the first vertex equal to u times the first
   * flattened edge plus v times the second, the projection test holds exactly
   * when u, v and u + v lie in [0, 1], and on the boundary only when `edge`.
   */
  lemma ProjectionInnerSpec(t: Triangle3D, point: Point3D, edge: bool, u: real, v: real)
    requires t.ProjectedGram() != 0.0
    requires point.X - t.V1.X == u * (t.V2.X - t.V1.X) + v * (t.V3.X - t.V1.X)
    requires point.Y - t.V1.Y == u * (t.V2.Y - t.V1.Y) + v * (t.V3.Y - t.V1.Y)
    ensures t.IsProjectionInner(point, edge) <==>
      && 0.0 <= u && 0.0 <= v && u + v <= 1.0
      && (edge || (0.0 < u && 0.0 < v && u + v < 1.0))
  {
    var f := t.Flat();
    ProjectionIsFlat(t, point, edge);
    assert Vector2D.Between(f.V1, FlatPoint(point)) == Vector2D.Times(u, f.EdgeA()).Plus(Vector2D.Times(v, f.EdgeB()));
    Triangles2D.IsInnerSpec(f, FlatPoint(point), edge, u, v);
  }

  /** The projection test ignores the height of the point. */
  lemma ProjectionIgnoresHeight(t: Triangle3D, point: Point3D, z: real, edge: bool)
    requires t.ProjectedGram() != 0.0
    ensures t.IsProjectionInner(Point3D(point.X, point.Y, z), edge) == t.IsProjectionInner(point, edge)
  {
    var lifted := Point3D(point.X, point.Y, z);
    assert t.FlatOffset(lifted) == t.FlatOffset(point);
    assert t.ProjectedU(lifted) == t.ProjectedU(point);
    assert t.ProjectedV(lifted) == t.ProjectedV(point);
  }

  /** Each vertex projects onto the boundary, so the test answers `edge` there. */
  lemma ProjectedVertices(t: Triangle3D, edge: bool)
    requires t.ProjectedGram() != 0.0
    ensures t.IsProjectionInner(t.V1, edge) == edge
    ensures t.IsProjectionInner(t.V2, edge) == edge
    ensures t.IsProjectionInner(t.V3, edge) == edge
  {
    ProjectionIsFlat(t, t.V1, edge);
    ProjectionIsFlat(t, t.V2, edge);
    ProjectionIsFlat(t, t.V3, edge);
    Triangles2D.VerticesAnswerEdge(t.Flat(), edge);
  }

  // ---------------------------------------------------------------- intersection with a segment

  /**
   * Intersect reports true exactly when it carries a point; that point is
   * where the segment's line meets the triangle's plane, it lies on the plane
   * and within the segment's length of both ends, and it projects into the
   * triangle. A hit of the plane that projects outside is reported as false.
   */
  lemma IntersectSpec(t: Triangle3D, segment: Segment3D, edge: bool, math: MathLib)
    requires Lawful(math)
    requires t.NormalVector().Length(math) != 0.0
    requires t.Plane(math).NormalVector().Length(math) != 0.0
    requires t.Plane(math).DistanceTo(segment.GetPoint(0.0), math) == 0.0
      || Vector3D.Between(segment.GetPoint(0.0), segment.GetPoint(1.0)).Length(math) != 0.0
    requires t.Plane(math).IsIntersect(segment, math).0 ==> t.ProjectedGram() != 0.0
    ensures t.Intersect(segment, edge, math).0 <==> t.Intersect(segment, edge, math).1.Some?
    ensures t.Plane(math).IsIntersect(segment, math).0 ==> t.Plane(math).IsIntersect(segment, math).1.Some?
    ensures t.Intersect(segment, edge, math).0 ==>
      && t.Intersect(segment, edge, math).1 == t.Plane(math).Intersect(segment.StartPoint, segment.Span(), math)
      && t.Plane(math).IsCoplanar(t.Intersect(segment, edge, math).1.value)
      && t.IsCoplanar(t.Intersect(segment, edge, math).1.value)
      && t.Intersect(segment, edge, math).1.value.DistanceTo(segment.StartPoint, math) <= segment.Length(math)
      && t.Intersect(segment, edge, math).1.value.DistanceTo(segment.EndPoint, math) <= segment.Length(math)
      && t.IsProjectionInner(t.Intersect(segment, edge, math).1.value, edge)
    ensures t.Plane(math).IsIntersect(segment, math).0 && !t.Intersect(segment, edge, math).0 ==>
      !t.IsProjectionInner(t.Plane(math).IsIntersect(segment, math).1.value, edge)
  {
    var plane := t.Plane(math);
    Primitives3D.LengthProperties(plane.NormalVector(), math);
    Primitives3D.LengthProperties(t.NormalVector(), math);
    GetPointSpec(segment, 0.0);
    if plane.DistanceTo(segment.StartPoint, math) == 0.0 {
      DivMul(plane.Residual(segment.StartPoint), plane.NormalVector().Length(math));
    } else {
      Primitives3D.LengthProperties(segment.Span(), math);
    }
    IsIntersectSpec(plane, segment, math);
    var hit := plane.IsIntersect(segment, math);
    if hit.0 {
      PlanePointsCoplanar(t, hit.1.value, math);
    }
  }

  // ---------------------------------------------------------------- examples

  /** The triangle (-1, 0, 0), (1, 0, 0), (0, 1, 0) is counter-clockwise with its normal along +Z. */
  lemma FlatTriangleOrientation(t: Triangle3D)
    requires t == Triangle3D(Point3D(-1.0, 0.0, 0.0), Point3D(1.0, 0.0, 0.0), Point3D(0.0, 1.0, 0.0))
    ensures t.IsCounterClockwise()
    ensures t.NormalVector() == Vector3D(0.0, 0.0, 2.0)
    ensures t.NormalVector().DotProduct(Vector3D.BasisX()) == 0.0
  {
  }

  /** The same triangle's projected Gram determinant is 4. */
  lemma FlatTriangleGram(t: Triangle3D)
    requires t == Triangle3D(Point3D(-1.0, 0.0, 0.0), Point3D(1.0, 0.0, 0.0), Point3D(0.0, 1.0, 0.0))
    ensures t.ProjectedGram() == 4.0
  {
  }

  /** In the same triangle the point (0.5, 0.2, 0.2) projects inside, with weights u = 0.65 and v = 0.2. */
  lemma FlatTriangleInside(t: Triangle3D, p: Point3D, u: real, v: real)
    requires t == Triangle3D(Point3D(-1.0, 0.0, 0.0), Point3D(1.0, 0.0, 0.0), Point3D(0.0, 1.0, 0.0))
    requires p == Point3D(0.5, 0.2, 0.2) && u == 0.65 && v == 0.2
    ensures t.ProjectedGram() != 0.0
    ensures t.IsProjectionInner(p)
  {
    FlatTriangleGram(t);
    ProjectionInnerSpec(t, p, true, u, v);
  }

  /** In the same triangle the point (-1, 0, 5), straight above the first vertex, counts as inside when edges do. */
  lemma FlatTriangleAboveVertex(t: Triangle3D, p: Point3D)
    requires t == Triangle3D(Point3D(-1.0, 0.0, 0.0), Point3D(1.0, 0.0, 0.0), Point3D(0.0, 1.0, 0.0))
    requires p == Point3D(-1.0, 0.0, 5.0)
    ensures t.ProjectedGram() != 0.0
    ensures t.IsProjectionInner(p)
    ensures !t.IsProjectionInner(p, false)
  {
    FlatTriangleGram(t);
    ProjectionIgnoresHeight(t, t.V1, p.Z, true);
    ProjectionIgnoresHeight(t, t.V1, p.Z, false);
    ProjectedVertices(t, true);
    ProjectedVertices(t, false);
  }

  /** The triangle (1, 0, 0), (0, 1, 0), (0, 0, 1) is counter-clockwise with its normal vector (1, 1, 1). */
  lemma SlantedTriangleOrientation(t: Triangle3D)
    requires t == Triangle3D(Point3D(1.0, 0.0, 0.0), Point3D(0.0, 1.0, 0.0), Point3D(0.0, 0.0, 1.0))
    ensures t.IsCounterClockwise()
    ensures t.NormalVector() == Vector3D(1.0, 1.0, 1.0)
  {
  }

  /** The same triangle's projected Gram determinant is 1. */
  lemma SlantedTriangleGram(t: Triangle3D)
    requires t == Triangle3D(Point3D(1.0, 0.0, 0.0), Point3D(0.0, 1.0, 0.0), Point3D(0.0, 0.0, 1.0))
    ensures t.ProjectedGram() == 1.0
  {
  }

  /** In the same triangle (0.5, 0.2, 0.2) projects inside with weights 0.2 and 0.3. */
  lemma SlantedTriangleInside(t: Triangle3D, p: Point3D, u: real, v: real)
    requires t == Triangle3D(Point3D(1.0, 0.0, 0.0), Point3D(0.0, 1.0, 0.0), Point3D(0.0, 0.0, 1.0))
    requires p == Point3D(0.5, 0.2, 0.2) && u == 0.2 && v == 0.3
    ensures t.ProjectedGram() != 0.0
    ensures t.IsProjectionInner(p)
  {
    SlantedTriangleGram(t);
    ProjectionInnerSpec(t, p, true, u, v);
  }

  /** In the same triangle (-1, 0, 5) projects outside: its weights 0 and 2 sum past 1. */
  lemma SlantedTriangleOutside(t: Triangle3D, p: Point3D, u: real, v: real)
    requires t == Triangle3D(Point3D(1.0, 0.0, 0.0), Point3D(0.0, 1.0, 0.0), Point3D(0.0, 0.0, 1.0))
    requires p == Point3D(-1.0, 0.0, 5.0) && u == 0.0 && v == 2.0
    ensures t.ProjectedGram() != 0.0
    ensures !t.IsProjectionInner(p)
  {
    SlantedTriangleGram(t);
    ProjectionInnerSpec(t, p, true, u, v);
  }
}
