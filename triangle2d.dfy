/**
 * Triangle2D: three vertices of the plane, with the strict orientation test,
 * the circumcentre and the barycentric containment test.
 */
module Triangles2D {
  import opened RealMath
  import opened Primitives2D

  datatype Triangle2D = Triangle2D(V1: Point2D, V2: Point2D, V3: Point2D)
  {
    /** The edge vector from the first vertex to the second. */
    function EdgeA(): Vector2D { Vector2D.Between(V1, V2) }

    /** The edge vector from the first vertex to the third. */
    function EdgeB(): Vector2D { Vector2D.Between(V1, V3) }

    /** Strictly counter-clockwise: the turn from v1->v2 to v1->v3 is positive. */
    predicate IsCounterClockwise()
    {
      EdgeA().X * EdgeB().Y > EdgeA().Y * EdgeB().X
    }

    /** The determinant of the circumcentre's linear system; the source divides by it. */
    function CircumDeterminant(): real
    {
      (V1.X - V2.X) * (V1.Y - V3.Y) - (V1.Y - V2.Y) * (V1.X - V3.X)
    }

    /**
     * The circumcentre: the common point of the perpendicular bisectors of
     * v1v2 and v1v3, solved by Cramer's rule.
     */
    function CircumCenter(): Point2D
      requires CircumDeterminant() != 0.0
    {
      CramerPoint(V1.X - V2.X, V1.Y - V2.Y, V1.X - V3.X, V1.Y - V3.Y, HalfSquareGap(V1, V2), HalfSquareGap(V1, V3))
    }

    /** The Gram determinant of the two edges: the denominator of U. */
    function Gram(): real
    {
      EdgeA().DotProduct(EdgeA()) * EdgeB().DotProduct(EdgeB()) - EdgeB().DotProduct(EdgeA()) * EdgeA().DotProduct(EdgeB())
    }

    /** The barycentric weight of the second vertex. */
    function U(point: Point2D): real
      requires Gram() != 0.0
    {
      (Vector2D.Between(V1, point).DotProduct(EdgeA()) * EdgeB().DotProduct(EdgeB())
        - Vector2D.Between(V1, point).DotProduct(EdgeB()) * EdgeB().DotProduct(EdgeA()))
      / Gram()
    }

    /** The barycentric weight of the third vertex; its denominator is the Gram determinant reordered. */
    function V(point: Point2D): real
      requires Gram() != 0.0
    {
      (Vector2D.Between(V1, point).DotProduct(EdgeB()) * EdgeA().DotProduct(EdgeA())
        - Vector2D.Between(V1, point).DotProduct(EdgeA()) * EdgeA().DotProduct(EdgeB()))
      / (EdgeB().DotProduct(EdgeB()) * EdgeA().DotProduct(EdgeA()) - EdgeA().DotProduct(EdgeB()) * EdgeB().DotProduct(EdgeA()))
    }

    /**
     * Inside the closed triangle: true strictly inside, `edge` on the
     * boundary (a zero weight or weights summing to one), false outside.
     */
    predicate IsInner(point: Point2D, edge: bool := true)
      requires Gram() != 0.0
    {
      if U(point) >= 0.0 && V(point) >= 0.0 && U(point) + V(point) <= 1.0 then
        if U(point) == 0.0 || V(point) == 0.0 || U(point) + V(point) == 1.0 then edge else true
      else false
    }
  }

  /** Half the difference of the squared distances of `p` and `q` from the origin. */
  function HalfSquareGap(p: Point2D, q: Point2D): real
  {
    0.5 * ((p.X * p.X - q.X * q.X) - (q.Y * q.Y - p.Y * p.Y))
  }

  /** The solution of a x + b y = e, c x + d y = f by Cramer's rule. */
  function CramerPoint(a: real, b: real, c: real, d: real, e: real, f: real): Point2D
    requires a * d - b * c != 0.0
  {
    Point2D((e * d - b * f) / (a * d - b * c), (a * f - e * c) / (a * d - b * c))
  }

  // ---------------------------------------------------------------- orientation

  /**
   * The triangle is counter-clockwise exactly when the cross product of its
   * edges is positive; with the last two vertices swapped, exactly when it is
   * negative. So swapping flips the answer unless the vertices are collinear,
   * when both orders are rejected.
   */
  lemma CounterClockwiseSpec(t: Triangle2D)
    ensures t.IsCounterClockwise() <==> t.EdgeA().Cross(t.EdgeB()) > 0.0
    ensures Triangle2D(t.V1, t.V3, t.V2).IsCounterClockwise() <==> t.EdgeA().Cross(t.EdgeB()) < 0.0
    ensures t.EdgeA().Cross(t.EdgeB()) != 0.0 ==>
      (Triangle2D(t.V1, t.V3, t.V2).IsCounterClockwise() <==> !t.IsCounterClockwise())
    ensures t.EdgeA().Cross(t.EdgeB()) == 0.0 ==>
      !t.IsCounterClockwise() && !Triangle2D(t.V1, t.V3, t.V2).IsCounterClockwise()
  {
  }

  // ---------------------------------------------------------------- circumcentre

  /** The circumcentre's determinant is the edges' cross product: it vanishes exactly for collinear vertices. */
  lemma CircumDeterminantIsCross(t: Triangle2D)
    ensures t.CircumDeterminant() == t.EdgeA().Cross(t.EdgeB())
  {
  }

  /** The circumcentre is at the same distance from all three vertices. */
  lemma CircumCenterSpec(t: Triangle2D)
    requires t.CircumDeterminant() != 0.0
    ensures t.CircumCenter().SquareDistanceTo(t.V1) == t.CircumCenter().SquareDistanceTo(t.V2)
    ensures t.CircumCenter().SquareDistanceTo(t.V1) == t.CircumCenter().SquareDistanceTo(t.V3)
  {
    CircumCenterOnBisectors(t, t.CircumCenter());
    OnBisector(t.V1, t.V2, t.CircumCenter());
    OnBisector(t.V1, t.V3, t.CircumCenter());
  }

  /** The circumcentre solves both bisector equations. */
  lemma CircumCenterOnBisectors(t: Triangle2D, o: Point2D)
    requires t.CircumDeterminant() != 0.0 && o == t.CircumCenter()
    ensures OnBisectorOf(t.V1, t.V2, o) && OnBisectorOf(t.V1, t.V3, o)
  {
    CramerSolves(t.V1.X - t.V2.X, t.V1.Y - t.V2.Y, t.V1.X - t.V3.X, t.V1.Y - t.V3.Y,
      HalfSquareGap(t.V1, t.V2), HalfSquareGap(t.V1, t.V3), o);
  }

  /** Any point at the same distance from the three vertices is the circumcentre. */
  lemma CircumCenterUnique(t: Triangle2D, o: Point2D)
    requires t.CircumDeterminant() != 0.0
    requires o.SquareDistanceTo(t.V1) == o.SquareDistanceTo(t.V2)
    requires o.SquareDistanceTo(t.V1) == o.SquareDistanceTo(t.V3)
    ensures o == t.CircumCenter()
  {
    Equidistant(t.V1, t.V2, o);
    Equidistant(t.V1, t.V3, o);
    BisectorsMeetOnce(t, o);
  }

  /** The only common point of the two bisectors is the circumcentre. */
  lemma BisectorsMeetOnce(t: Triangle2D, o: Point2D)
    requires t.CircumDeterminant() != 0.0
    requires OnBisectorOf(t.V1, t.V2, o) && OnBisectorOf(t.V1, t.V3, o)
    ensures o == t.CircumCenter()
  {
    CramerUnique(t.V1.X - t.V2.X, t.V1.Y - t.V2.Y, t.V1.X - t.V3.X, t.V1.Y - t.V3.Y,
      HalfSquareGap(t.V1, t.V2), HalfSquareGap(t.V1, t.V3), o);
  }

  /** `o` is on the perpendicular bisector of pq, written as the source's linear equation. */
  predicate OnBisectorOf(p: Point2D, q: Point2D, o: Point2D)
  {
    OnRow(p.X - q.X, p.Y - q.Y, HalfSquareGap(p, q), o)
  }

  /** `o` solves a x + b y = e. */
  predicate OnRow(a: real, b: real, e: real, o: Point2D)
  {
    a * o.X + b * o.Y == e
  }

  /** A point of the perpendicular bisector of pq is as far from p as from q. */
  lemma OnBisector(p: Point2D, q: Point2D, o: Point2D)
    requires OnBisectorOf(p, q, o)
    ensures o.SquareDistanceTo(p) == o.SquareDistanceTo(q)
  {
    BisectorGap(p, q, o);
  }

  /** A point as far from p as from q is on the perpendicular bisector of pq. */
  lemma Equidistant(p: Point2D, q: Point2D, o: Point2D)
    requires o.SquareDistanceTo(p) == o.SquareDistanceTo(q)
    ensures OnBisectorOf(p, q, o)
  {
    BisectorGap(p, q, o);
  }

  /** The gap between the squared distances, as the residual of the bisector equation. */
  lemma BisectorGap(p: Point2D, q: Point2D, o: Point2D)
    ensures o.SquareDistanceTo(p) - o.SquareDistanceTo(q)
      == 2.0 * (HalfSquareGap(p, q) - ((p.X - q.X) * o.X + (p.Y - q.Y) * o.Y))
  {
  }

  /** Cramer's point solves both equations. */
  lemma CramerSolves(a: real, b: real, c: real, d: real, e: real, f: real, q: Point2D)
    requires a * d - b * c != 0.0 && q == CramerPoint(a, b, c, d, e, f)
    ensures OnRow(a, b, e, q) && OnRow(c, d, f, q)
  {
    var det := a * d - b * c;
    var x, y := e * d - b * f, a * f - e * c;
    MulDiv(a, x, det);
    MulDiv(b, y, det);
    MulDiv(c, x, det);
    MulDiv(d, y, det);
    DivAdd(a * x, b * y, det);
    DivAdd(c * x, d * y, det);
    assert a * x + b * y == e * det;
    assert c * x + d * y == f * det;
    DivUnique(e * det, det, e);
    DivUnique(f * det, det, f);
  }

  /** A solution of both equations is Cramer's point. */
  lemma CramerUnique(a: real, b: real, c: real, d: real, e: real, f: real, q: Point2D)
    requires a * d - b * c != 0.0
    requires OnRow(a, b, e, q) && OnRow(c, d, f, q)
    ensures q == CramerPoint(a, b, c, d, e, f)
  {
    var det := a * d - b * c;
    assert q.X * det == e * d - b * f by {
      assert d * (a * q.X + b * q.Y) - b * (c * q.X + d * q.Y) == q.X * det;
    }
    assert q.Y * det == a * f - e * c by {
      assert a * (c * q.X + d * q.Y) - c * (a * q.X + b * q.Y) == q.Y * det;
    }
    DivUnique(e * d - b * f, det, q.X);
    DivUnique(a * f - e * c, det, q.Y);
  }

  // ---------------------------------------------------------------- barycentric coordinates

  /** The Gram determinant is the squared cross product: it vanishes exactly for collinear vertices. */
  lemma GramIsCrossSquared(t: Triangle2D)
    ensures t.Gram() == t.EdgeA().Cross(t.EdgeB()) * t.EdgeA().Cross(t.EdgeB())
    ensures t.Gram() != 0.0 <==> t.EdgeA().Cross(t.EdgeB()) != 0.0
  {
    var a, b := t.EdgeA(), t.EdgeB();
    Lagrange(a.X, a.Y, b.X, b.Y);
    SquareNonNegative(a.Cross(b));
  }

  /** Lagrange's identity in the plane. */
  lemma Lagrange(p: real, q: real, r: real, s: real)
    ensures (p * p + q * q) * (r * r + s * s) - (r * p + s * q) * (p * r + q * s)
      == (p * s - q * r) * (p * s - q * r)
  {
  }

  /**
   * The weights are unique: when point - v1 = u (v2 - v1) + v (v3 - v1),
   * U and V give back u and v.
   */
  lemma BarycentricUnique(t: Triangle2D, point: Point2D, u: real, v: real)
    requires t.Gram() != 0.0
    requires Vector2D.Between(t.V1, point) == Vector2D.Times(u, t.EdgeA()).Plus(Vector2D.Times(v, t.EdgeB()))
    ensures t.U(point) == u && t.V(point) == v
  {
    var a, b, op := t.EdgeA(), t.EdgeB(), Vector2D.Between(t.V1, point);
    CombinationDot(a, b, a, u, v);
    CombinationDot(a, b, b, u, v);
    WeightsFromDots(a.DotProduct(a), a.DotProduct(b), b.DotProduct(a), b.DotProduct(b),
      op.DotProduct(a), op.DotProduct(b), u, v);
  }

  /** The dot product distributes over a linear combination. */
  lemma CombinationDot(a: Vector2D, b: Vector2D, w: Vector2D, u: real, v: real)
    ensures Vector2D.Times(u, a).Plus(Vector2D.Times(v, b)).DotProduct(w)
      == u * a.DotProduct(w) + v * b.DotProduct(w)
  {
  }

  /**
   * With pa = u aa + v ba and pb = u ab + v bb, the two quotients of the
   * source give back u and v.
   */
  lemma WeightsFromDots(aa: real, ab: real, ba: real, bb: real, pa: real, pb: real, u: real, v: real)
    requires aa * bb - ba * ab != 0.0
    requires pa == u * aa + v * ba && pb == u * ab + v * bb
    ensures (pa * bb - pb * ba) / (aa * bb - ba * ab) == u
    ensures (pb * aa - pa * ab) / (bb * aa - ab * ba) == v
  {
    assert pa * bb - pb * ba == u * (aa * bb - ba * ab);
    assert pb * aa - pa * ab == v * (bb * aa - ab * ba);
    DivUnique(pa * bb - pb * ba, aa * bb - ba * ab, u);
    DivUnique(pb * aa - pa * ab, bb * aa - ab * ba, v);
  }

  /**
   * The weights reconstruct the point: point - v1 = U (v2 - v1) + V (v3 - v1)
   * for every point of the plane.
   */
  lemma BarycentricSpec(t: Triangle2D, point: Point2D)
    requires t.Gram() != 0.0
    ensures Vector2D.Between(t.V1, point) == Vector2D.Times(t.U(point), t.EdgeA()).Plus(Vector2D.Times(t.V(point), t.EdgeB()))
  {
    var a, b, op := t.EdgeA(), t.EdgeB(), Vector2D.Between(t.V1, point);
    GramIsCrossSquared(t);
    var w := CramerPoint(a.X, b.X, a.Y, b.Y, op.X, op.Y);
    CramerCombination(a, b, op, w);
    BarycentricUnique(t, point, w.X, w.Y);
  }

  /** Two edges that are not parallel span the plane: Cramer's rule gives the weights. */
  lemma CramerCombination(a: Vector2D, b: Vector2D, op: Vector2D, w: Point2D)
    requires a.X * b.Y - b.X * a.Y != 0.0 && w == CramerPoint(a.X, b.X, a.Y, b.Y, op.X, op.Y)
    ensures op == Vector2D.Times(w.X, a).Plus(Vector2D.Times(w.Y, b))
  {
    CramerSolves(a.X, b.X, a.Y, b.Y, op.X, op.Y, w);
  }

  /**
   * Containment in the coordinates of the point: a point u (v2 - v1) +
   * v (v3 - v1) away from v1 is inner exactly when u, v >= 0 and u + v <= 1,
   * and, when `edge` is false, none of these holds with equality.
   */
  lemma IsInnerSpec(t: Triangle2D, point: Point2D, edge: bool, u: real, v: real)
    requires t.Gram() != 0.0
    requires Vector2D.Between(t.V1, point) == Vector2D.Times(u, t.EdgeA()).Plus(Vector2D.Times(v, t.EdgeB()))
    ensures t.IsInner(point, edge) <==>
      && 0.0 <= u && 0.0 <= v && u + v <= 1.0
      && (edge || (0.0 < u && 0.0 < v && u + v < 1.0))
  {
    BarycentricUnique(t, point, u, v);
  }

  /** Each vertex lies on the boundary, so the test answers `edge` there. */
  lemma VerticesAnswerEdge(t: Triangle2D, edge: bool)
    requires t.Gram() != 0.0
    ensures t.IsInner(t.V1, edge) == edge
    ensures t.IsInner(t.V2, edge) == edge
    ensures t.IsInner(t.V3, edge) == edge
  {
    VertexWeights(t, 0.0, 1.0);
  }

  /** The weights of the vertices are (0, 0), (1, 0) and (0, 1). */
  lemma VertexWeights(t: Triangle2D, zero: real, one: real)
    requires t.Gram() != 0.0 && zero == 0.0 && one == 1.0
    ensures t.U(t.V1) == zero && t.V(t.V1) == zero
    ensures t.U(t.V2) == one && t.V(t.V2) == zero
    ensures t.U(t.V3) == zero && t.V(t.V3) == one
  {
    BarycentricUnique(t, t.V1, zero, zero);
    BarycentricUnique(t, t.V2, one, zero);
    BarycentricUnique(t, t.V3, zero, one);
  }
}
