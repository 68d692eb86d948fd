/**
 * Arc3D: a circular arc in space, given by a frame (centre and three bases),
 * a radius and a start and end angle measured from the X basis towards the Y
 * basis, with its two constructors, its points and the arcs derived from it.
 */
module Arcs3D {
  import opened RealMath
  import opened Results
  import opened Primitives3D
  import opened Transforms3D
  import Triangles3D

  datatype Arc3D = Arc3D(Transform: Transform3D, Radius: real, StartAngle: real, EndAngle: real)
  {
    /** The origin of the frame. */
    function Center(): Point3D { Transform.Origin() }

    /** The angle the arc sweeps. */
    function Span(): real { EndAngle - StartAngle }

    /** radius times the swept angle. */
    function Length(): real { Radius * Span() }

    /** The angle a ratio of the sweep past the start. */
    function AngleAt(ratio: real): real { StartAngle + ratio * Span() }

    /** The centre moved by radius·cos along the X basis and radius·sin along the Y basis. */
    function GetPoint(ratio: real, math: MathLib): Point3D
    {
      FramePoint(Transform.Origin(), Transform.BasisX(), Transform.BasisY(),
                 Radius * math.Cos(AngleAt(ratio)), Radius * math.Sin(AngleAt(ratio)))
    }

    function StartPoint(math: MathLib): Point3D { GetPoint(0.0, math) }

    function EndPoint(math: MathLib): Point3D { GetPoint(1.0, math) }

    /** The radii to the two ends are not parallel, so Normal can normalise their cross product. */
    predicate NormalDefined(math: MathLib)
    {
      Vector3D.Between(Center(), StartPoint(math)).CrossProduct(Vector3D.Between(Center(), EndPoint(math))).Length(math) != 0.0
    }

    /** The normalised cross product of the radii to the start and the end point. */
    function Normal(math: MathLib): Vector3D
      requires NormalDefined(math)
    {
      Vector3D.Between(Center(), StartPoint(math)).CrossProduct(Vector3D.Between(Center(), EndPoint(math))).Normalize(math)
    }

    /** The start angle moved back by `start` spans. */
    function ExtendedStart(start: real): real { StartAngle - start * Span() }

    /** The end angle moved on by `end` spans. */
    function ExtendedEnd(end: real): real { EndAngle + end * Span() }

    /** The X and Y bases are not parallel, so the constructor can normalise their cross product. */
    predicate FrameDefined(math: MathLib)
    {
      Transform.BasisX().CrossProduct(Transform.BasisY()).Length(math) != 0.0
    }

    /**
     * The arc with the new angles in the same centre and X and Y bases;
     * ArgumentException when it would sweep more than a full turn.
     */
    function Extend(start: real, end: real, math: MathLib): Result<Arc3D>
      requires ExtendedEnd(end) - ExtendedStart(start) > 2.0 * math.PI || FrameDefined(math)
    {
      if ExtendedEnd(end) - ExtendedStart(start) > 2.0 * math.PI then Failure(Argument)
      else Success(FromAngles(Transform.Origin(), Radius, ExtendedStart(start), ExtendedEnd(end),
                              Transform.BasisX(), Transform.BasisY(), math))
    }

    /** The same radius and angles in the frame `transform * this frame`, its Z basis rebuilt. */
    function CreateTransformed(transform: Transform3D, math: MathLib): Arc3D
      requires transform.Multiply(Transform).BasisX().CrossProduct(transform.Multiply(Transform).BasisY()).Length(math) != 0.0
    {
      var resTrans := transform.Multiply(Transform);
      FromAngles(resTrans.Origin(), Radius, StartAngle, EndAngle, resTrans.BasisX(), resTrans.BasisY(), math)
    }
  }

  /** `origin` moved by `a` along `basisX` and `b` along `basisY`. */
  function FramePoint(origin: Point3D, basisX: Vector3D, basisY: Vector3D, a: real, b: real): Point3D
  {
    origin.Add(Vector3D.Times(a, basisX).Plus(Vector3D.Times(b, basisY)))
  }

  /**
   * The constructor from a centre, a radius, the two angles and the X and Y
   * bases: the Z basis is their normalised cross product.
   */
  function FromAngles(center: Point3D, radius: real, startAngle: real, endAngle: real,
                      basisX: Vector3D, basisY: Vector3D, math: MathLib): Arc3D
    requires basisX.CrossProduct(basisY).Length(math) != 0.0
  {
    var basisZ := basisX.CrossProduct(basisY).Normalize(math);
    Arc3D(FromFrame(center, basisX, basisY, basisZ), radius, startAngle, endAngle)
  }

  // ---------------------------------------------------------------- the three-point constructor

  /** The circumcentre of the three points. */
  function ThreePointCenter(startPoint: Point3D, endPoint: Point3D, midPoint: Point3D): Point3D
    requires Triangles3D.Triangle3D(startPoint, endPoint, midPoint).CircumDenominator() != 0.0
  {
    Triangles3D.Triangle3D(startPoint, endPoint, midPoint).CircumCenter()
  }

  /**
   * The Z basis of the three-point constructor: the vector from the middle
   * point to the end point crossed with the unit vector from the middle point
   * to the start point (left unnormalised, as the source leaves it).
   */
  function ThreePointNormal(startPoint: Point3D, endPoint: Point3D, midPoint: Point3D, math: MathLib): Vector3D
    requires Vector3D.Between(midPoint, startPoint).Length(math) != 0.0
  {
    Vector3D.Between(midPoint, endPoint).CrossProduct(Vector3D.Between(midPoint, startPoint).Normalize(math))
  }

  /**
   * Every division the three-point constructor performs is by a non-zero
   * number: the circumcentre's determinant, and the lengths of the radii to
   * the start and end points, of the chord from the middle point to the start
   * point, and of the Z basis crossed with the X basis.
   */
  predicate ThroughPointsDefined(startPoint: Point3D, endPoint: Point3D, midPoint: Point3D, math: MathLib)
  {
    && Triangles3D.Triangle3D(startPoint, endPoint, midPoint).CircumDenominator() != 0.0
    && var center := ThreePointCenter(startPoint, endPoint, midPoint);
    && Vector3D.Between(center, startPoint).Length(math) != 0.0
    && Vector3D.Between(center, endPoint).Length(math) != 0.0
    && Vector3D.Between(midPoint, startPoint).Length(math) != 0.0
    && ThreePointNormal(startPoint, endPoint, midPoint, math)
         .CrossProduct(Vector3D.Between(center, startPoint).Normalize(math)).Length(math) != 0.0
  }

  /**
   * The radius from the centre to the end point turns about the Z basis in
   * the same sense as the arc: the cross product of the start radius with the
   * unit end radius points the way of the Z basis.
   */
  predicate TurnsWithNormal(startPoint: Point3D, endPoint: Point3D, midPoint: Point3D, math: MathLib)
    requires ThroughPointsDefined(startPoint, endPoint, midPoint, math)
  {
    var center := ThreePointCenter(startPoint, endPoint, midPoint);
    Vector3D.Between(center, startPoint).CrossProduct(Vector3D.Between(center, endPoint).Normalize(math))
      .IsAlmostEqualTo(ThreePointNormal(startPoint, endPoint, midPoint, math), math)
  }

  /**
   * The constructor through a start point, an end point and a middle point:
   * centred on the circumcentre, radius the distance to the start point, X
   * basis towards the start point, start angle 0, and end angle the angle
   * between the radii to the ends, or the rest of the full turn when the
   * turn runs against the Z basis.
   */
  function ThroughPoints(startPoint: Point3D, endPoint: Point3D, midPoint: Point3D, math: MathLib): Arc3D
    requires ThroughPointsDefined(startPoint, endPoint, midPoint, math)
  {
    var center := ThreePointCenter(startPoint, endPoint, midPoint);
    var radius := center.DistanceTo(startPoint, math);
    var basisX := Vector3D.Between(center, startPoint).Normalize(math);
    var basisZ := ThreePointNormal(startPoint, endPoint, midPoint, math);
    var basisY := basisZ.CrossProduct(basisX).Normalize(math);
    var angle := Vector3D.Between(center, startPoint).AngleTo(Vector3D.Between(center, endPoint), math);
    var endAngle := if TurnsWithNormal(startPoint, endPoint, midPoint, math) then angle else 2.0 * math.PI - angle;
    Arc3D(FromFrame(center, basisX, basisY, basisZ), radius, 0.0, endAngle)
  }

  // ---------------------------------------------------------------- points of the arc

  /** Length is the radius times the sweep, so it is zero for a zero sweep and flips sign with the sweep. */
  lemma LengthSpec(arc: Arc3D)
    ensures arc.Length() == arc.Radius * (arc.EndAngle - arc.StartAngle)
    ensures arc.Span() == 0.0 ==> arc.Length() == 0.0
    ensures arc.(StartAngle := arc.EndAngle, EndAngle := arc.StartAngle).Length() == -arc.Length()
  {
  }

  /** The point at `a`, `b` in an affine frame's XY plane is the frame point with those coordinates. */
  lemma FramePointIsOfPoint(t: Transform3D, a: real, b: real)
    ensures t.OfPoint(Point3D(a, b, 0.0)) == FramePoint(t.Origin(), t.BasisX(), t.BasisY(), a, b)
  {
    OfPointComponents(t, Point3D(a, b, 0.0));
  }

  /** The point at a ratio is the frame applied to the polar point at that ratio's angle. */
  lemma PointInFrame(arc: Arc3D, ratio: real, math: MathLib)
    ensures arc.GetPoint(ratio, math)
         == arc.Transform.OfPoint(Point3D(arc.Radius * math.Cos(arc.AngleAt(ratio)), arc.Radius * math.Sin(arc.AngleAt(ratio)), 0.0))
  {
    FramePointIsOfPoint(arc.Transform, arc.Radius * math.Cos(arc.AngleAt(ratio)), arc.Radius * math.Sin(arc.AngleAt(ratio)));
  }

  /** A combination of two orthogonal unit vectors has squared length a^2 + b^2. */
  lemma OrthonormalCombination(x: Vector3D, y: Vector3D, a: real, b: real)
    requires x.SquareLength() == 1.0 && y.SquareLength() == 1.0 && x.DotProduct(y) == 0.0
    ensures Vector3D.Times(a, x).Plus(Vector3D.Times(b, y)).SquareLength() == a * a + b * b
  {
    var v := Vector3D.Times(a, x).Plus(Vector3D.Times(b, y));
    assert v.SquareLength() == a * a * x.SquareLength() + 2.0 * a * b * x.DotProduct(y) + b * b * y.SquareLength();
  }

  /** The frame point sits a^2 + b^2 (squared) from the origin when the bases are orthonormal. */
  lemma FramePointSquare(origin: Point3D, x: Vector3D, y: Vector3D, a: real, b: real)
    requires x.SquareLength() == 1.0 && y.SquareLength() == 1.0 && x.DotProduct(y) == 0.0
    ensures origin.SquareDistanceTo(FramePoint(origin, x, y, a, b)) == a * a + b * b
  {
    OrthonormalCombination(x, y, a, b);
  }

  /** (r c)^2 + (r s)^2 = r^2 when s^2 + c^2 = 1. */
  lemma PolarSquareAlgebra(r: real, c: real, s: real)
    requires s * s + c * c == 1.0
    ensures (r * c) * (r * c) + (r * s) * (r * s) == r * r
  {
    assert (r * c) * (r * c) + (r * s) * (r * s) == r * r * (s * s + c * c);
  }

  /** In an orthonormal X and Y basis every point of the arc is |radius| from the centre. */
  lemma GetPointOnCircle(arc: Arc3D, ratio: real, math: MathLib)
    requires Lawful(math)
    requires arc.Transform.BasisX().SquareLength() == 1.0 && arc.Transform.BasisY().SquareLength() == 1.0
    requires arc.Transform.BasisX().DotProduct(arc.Transform.BasisY()) == 0.0
    ensures arc.Center().DistanceTo(arc.GetPoint(ratio, math), math) == Abs(arc.Radius)
  {
    SqrtOfSquare(math, arc.Radius);
    assert math.Sin(arc.AngleAt(ratio)) * math.Sin(arc.AngleAt(ratio)) + math.Cos(arc.AngleAt(ratio)) * math.Cos(arc.AngleAt(ratio)) == 1.0;
    RadiusFromTrig(arc, ratio, math);
  }

  /** The step of GetPointOnCircle after the two facts about sine, cosine and square root. */
  lemma RadiusFromTrig(arc: Arc3D, ratio: real, math: MathLib)
    requires arc.Transform.BasisX().SquareLength() == 1.0 && arc.Transform.BasisY().SquareLength() == 1.0
    requires arc.Transform.BasisX().DotProduct(arc.Transform.BasisY()) == 0.0
    requires math.Sin(arc.AngleAt(ratio)) * math.Sin(arc.AngleAt(ratio)) + math.Cos(arc.AngleAt(ratio)) * math.Cos(arc.AngleAt(ratio)) == 1.0
    requires math.Sqrt(arc.Radius * arc.Radius) == Abs(arc.Radius)
    ensures arc.Center().DistanceTo(arc.GetPoint(ratio, math), math) == Abs(arc.Radius)
  {
    var c := arc.Center();
    var x, y := arc.Transform.BasisX(), arc.Transform.BasisY();
    var a, b := arc.Radius * math.Cos(arc.AngleAt(ratio)), arc.Radius * math.Sin(arc.AngleAt(ratio));
    FramePointSquare(c, x, y, a, b);
    PolarSquareAlgebra(arc.Radius, math.Cos(arc.AngleAt(ratio)), math.Sin(arc.AngleAt(ratio)));
    assert c.SquareDistanceTo(arc.GetPoint(ratio, math)) == arc.Radius * arc.Radius;
  }

  /** A frame point lies in the plane through the origin perpendicular to any `n` normal to both bases. */
  lemma FramePointInPlane(origin: Point3D, x: Vector3D, y: Vector3D, n: Vector3D, a: real, b: real)
    requires x.DotProduct(n) == 0.0 && y.DotProduct(n) == 0.0
    ensures Vector3D.Between(origin, FramePoint(origin, x, y, a, b)).DotProduct(n) == 0.0
  {
    var v := Vector3D.Between(origin, FramePoint(origin, x, y, a, b));
    assert v == Vector3D.Times(a, x).Plus(Vector3D.Times(b, y));
    assert v.DotProduct(n) == a * x.DotProduct(n) + b * y.DotProduct(n);
  }

  /** When the Z basis is normal to the X and Y bases, every point of the arc lies in the XY plane of the frame. */
  lemma GetPointInPlane(arc: Arc3D, ratio: real, math: MathLib)
    requires arc.Transform.BasisX().DotProduct(arc.Transform.BasisZ()) == 0.0
    requires arc.Transform.BasisY().DotProduct(arc.Transform.BasisZ()) == 0.0
    ensures Vector3D.Between(arc.Center(), arc.GetPoint(ratio, math)).DotProduct(arc.Transform.BasisZ()) == 0.0
  {
    FramePointInPlane(arc.Center(), arc.Transform.BasisX(), arc.Transform.BasisY(), arc.Transform.BasisZ(),
                      arc.Radius * math.Cos(arc.AngleAt(ratio)), arc.Radius * math.Sin(arc.AngleAt(ratio)));
  }

  /** The normal is a unit vector at right angles to the radii to both end points. */
  lemma NormalSpec(arc: Arc3D, math: MathLib)
    requires Lawful(math) && arc.NormalDefined(math)
    ensures arc.Normal(math).Length(math) == 1.0
    ensures arc.Normal(math).DotProduct(Vector3D.Between(arc.Center(), arc.StartPoint(math))) == 0.0
    ensures arc.Normal(math).DotProduct(Vector3D.Between(arc.Center(), arc.EndPoint(math))) == 0.0
  {
    var v1 := Vector3D.Between(arc.Center(), arc.StartPoint(math));
    var v2 := Vector3D.Between(arc.Center(), arc.EndPoint(math));
    var c := v1.CrossProduct(v2);
    LengthProperties(c, math);
    NormalizeIsUnit(c, math);
    CrossPerpendicularLeft(v1, v2);
    CrossPerpendicularRight(v1, v2);
    NormalizedPerpendicular(c, v1, math);
    NormalizedPerpendicular(c, v2, math);
  }

  // ---------------------------------------------------------------- the angle constructor

  /** Normalising keeps a vector perpendicular to whatever it was perpendicular to. */
  lemma NormalizedPerpendicular(v: Vector3D, w: Vector3D, math: MathLib)
    requires v.Length(math) != 0.0 && v.DotProduct(w) == 0.0
    ensures v.Normalize(math).DotProduct(w) == 0.0
  {
    var l := v.Length(math);
    assert v.Normalize(math).DotProduct(w) * l == v.DotProduct(w) by {
      DivMul(v.X, l);
      DivMul(v.Y, l);
      DivMul(v.Z, l);
      ScaledDot(v.X / l, v.Y / l, v.Z / l, w, l);
    }
  }

  lemma ScaledDot(a: real, b: real, c: real, w: Vector3D, l: real)
    ensures Vector3D(a, b, c).DotProduct(w) * l == (a * l) * w.X + (b * l) * w.Y + (c * l) * w.Z
  {
  }

  /**
   * The angle constructor keeps the centre, the radius, the angles and the X
   * and Y bases, and its Z basis is a unit vector normal to both.
   */
  lemma FromAnglesSpec(center: Point3D, radius: real, startAngle: real, endAngle: real,
                       basisX: Vector3D, basisY: Vector3D, math: MathLib)
    requires Lawful(math)
    requires basisX.CrossProduct(basisY).Length(math) != 0.0
    ensures var arc := FromAngles(center, radius, startAngle, endAngle, basisX, basisY, math);
      && arc.Transform.IsAffine()
      && arc.Center() == center && arc.Radius == radius
      && arc.StartAngle == startAngle && arc.EndAngle == endAngle
      && arc.Transform.BasisX() == basisX && arc.Transform.BasisY() == basisY
      && arc.Transform.BasisZ().SquareLength() == 1.0
      && arc.Transform.BasisX().DotProduct(arc.Transform.BasisZ()) == 0.0
      && arc.Transform.BasisY().DotProduct(arc.Transform.BasisZ()) == 0.0
  {
    var n := basisX.CrossProduct(basisY);
    assert n != Vector3D.Zero() by {
      ZeroLength(math);
    }
    NormalizeIsUnit(n, math);
    CrossProductProperties(basisX, basisY);
    DotProductProperties(n, basisX);
    DotProductProperties(n, basisY);
    NormalizedPerpendicular(n, basisX, math);
    NormalizedPerpendicular(n, basisY, math);
    DotProductProperties(n.Normalize(math), basisX);
    DotProductProperties(n.Normalize(math), basisY);
  }

  // ---------------------------------------------------------------- derived arcs

  /** Stretching the sweep by k stretches radius times sweep by k. */
  lemma ScaledLength(radius: real, k: real, span: real)
    ensures radius * (k * span) == k * (radius * span)
  {
  }

  /** The stretched angles: the point at a ratio of the new sweep is at a shifted, stretched ratio of the old one. */
  lemma StretchedAngle(a: real, b: real, s: real, e: real, r: real)
    ensures var lo := a - s * (b - a);
      var hi := b + e * (b - a);
      lo + r * (hi - lo) == a + (r * (1.0 + s + e) - s) * (b - a)
  {
    var lo := a - s * (b - a);
    var hi := b + e * (b - a);
    assert hi - lo == (1.0 + s + e) * (b - a);
    assert r * (hi - lo) == r * ((1.0 + s + e) * (b - a));
  }

  /** Two arcs with the same centre, X and Y bases and radius have the same point wherever their angles agree. */
  lemma SamePoint(arc: Arc3D, other: Arc3D, ratio: real, otherRatio: real, math: MathLib)
    requires arc.Transform.Origin() == other.Transform.Origin()
    requires arc.Transform.BasisX() == other.Transform.BasisX() && arc.Transform.BasisY() == other.Transform.BasisY()
    requires arc.Radius == other.Radius
    requires arc.AngleAt(ratio) == other.AngleAt(otherRatio)
    ensures arc.GetPoint(ratio, math) == other.GetPoint(otherRatio, math)
  {
  }

  /**
   * Extend fails with ArgumentException exactly when the stretched sweep is
   * more than a full turn; otherwise it keeps the centre, the X and Y bases
   * and the radius, stretches the sweep and the length by 1 + start + end,
   * and traces the same circle: its point at a ratio is the old arc's point
   * at the correspondingly stretched and shifted ratio.
   */
  lemma ExtendSpec(arc: Arc3D, start: real, end: real, ratio: real, math: MathLib)
    requires arc.ExtendedEnd(end) - arc.ExtendedStart(start) > 2.0 * math.PI || arc.FrameDefined(math)
    ensures var r := arc.Extend(start, end, math);
      && (r.Failure? <==> (1.0 + start + end) * arc.Span() > 2.0 * math.PI)
      && (r.Failure? ==> r.error == Argument)
      && (r.Success? ==>
            && r.value.Center() == arc.Center()
            && r.value.Transform.BasisX() == arc.Transform.BasisX()
            && r.value.Transform.BasisY() == arc.Transform.BasisY()
            && r.value.Radius == arc.Radius
            && r.value.Span() == (1.0 + start + end) * arc.Span()
            && r.value.Length() == (1.0 + start + end) * arc.Length()
            && r.value.GetPoint(ratio, math) == arc.GetPoint(ratio * (1.0 + start + end) - start, math))
  {
    assert arc.ExtendedEnd(end) - arc.ExtendedStart(start) == (1.0 + start + end) * arc.Span();
    if arc.Extend(start, end, math).Success? {
      ExtendedArc(arc, start, end, ratio, math);
    }
  }

  /** The arc Extend builds when the stretched sweep fits in a full turn. */
  lemma ExtendedArc(arc: Arc3D, start: real, end: real, ratio: real, math: MathLib)
    requires arc.FrameDefined(math)
    ensures var ext := FromAngles(arc.Transform.Origin(), arc.Radius, arc.ExtendedStart(start), arc.ExtendedEnd(end),
                                  arc.Transform.BasisX(), arc.Transform.BasisY(), math);
      && ext.Center() == arc.Center()
      && ext.Transform.BasisX() == arc.Transform.BasisX()
      && ext.Transform.BasisY() == arc.Transform.BasisY()
      && ext.Radius == arc.Radius
      && ext.Span() == (1.0 + start + end) * arc.Span()
      && ext.Length() == (1.0 + start + end) * arc.Length()
      && ext.GetPoint(ratio, math) == arc.GetPoint(ratio * (1.0 + start + end) - start, math)
  {
    var ext := FromAngles(arc.Transform.Origin(), arc.Radius, arc.ExtendedStart(start), arc.ExtendedEnd(end),
                          arc.Transform.BasisX(), arc.Transform.BasisY(), math);
    assert ext.Transform.Origin() == arc.Transform.Origin();
    assert ext.Transform.BasisX() == arc.Transform.BasisX() && ext.Transform.BasisY() == arc.Transform.BasisY();
    assert ext.Span() == (1.0 + start + end) * arc.Span();
    assert ext.Length() == arc.Radius * ((1.0 + start + end) * arc.Span());
    ScaledLength(arc.Radius, 1.0 + start + end, arc.Span());
    assert ext.AngleAt(ratio) == arc.AngleAt(ratio * (1.0 + start + end) - start) by {
      StretchedAngle(arc.StartAngle, arc.EndAngle, start, end, ratio);
    }
    SamePoint(ext, arc, ratio, ratio * (1.0 + start + end) - start, math);
  }

  /**
   * CreateTransformed keeps the radius and the angles, takes the centre and
   * the X and Y bases of `transform * frame`, and, for affine frames, maps
   * every point of the arc by the transform.
   */
  lemma TransformedSpec(arc: Arc3D, transform: Transform3D, ratio: real, math: MathLib)
    requires arc.Transform.IsAffine()
    requires transform.Multiply(arc.Transform).BasisX().CrossProduct(transform.Multiply(arc.Transform).BasisY()).Length(math) != 0.0
    ensures var moved := arc.CreateTransformed(transform, math);
      && moved.Radius == arc.Radius && moved.StartAngle == arc.StartAngle && moved.EndAngle == arc.EndAngle
      && moved.Length() == arc.Length()
      && moved.Center() == transform.Multiply(arc.Transform).Origin()
      && moved.Transform.BasisX() == transform.Multiply(arc.Transform).BasisX()
      && moved.Transform.BasisY() == transform.Multiply(arc.Transform).BasisY()
      && moved.GetPoint(ratio, math) == transform.OfPoint(arc.GetPoint(ratio, math))
  {
    ComposedPoint(arc, arc.CreateTransformed(transform, math), transform, ratio, math);
  }

  /**
   * An arc with the radius and angles of `arc` whose centre and X and Y
   * bases are those of `transform * frame` has each point of `arc` moved by
   * the transform.
   */
  lemma ComposedPoint(arc: Arc3D, moved: Arc3D, transform: Transform3D, ratio: real, math: MathLib)
    requires arc.Transform.IsAffine()
    requires moved.Radius == arc.Radius && moved.StartAngle == arc.StartAngle && moved.EndAngle == arc.EndAngle
    requires moved.Transform.Origin() == transform.Multiply(arc.Transform).Origin()
    requires moved.Transform.BasisX() == transform.Multiply(arc.Transform).BasisX()
    requires moved.Transform.BasisY() == transform.Multiply(arc.Transform).BasisY()
    ensures moved.GetPoint(ratio, math) == transform.OfPoint(arc.GetPoint(ratio, math))
  {
    var trans := transform.Multiply(arc.Transform);
    var q := Point3D(arc.Radius * math.Cos(arc.AngleAt(ratio)), arc.Radius * math.Sin(arc.AngleAt(ratio)), 0.0);
    assert moved.AngleAt(ratio) == arc.AngleAt(ratio);
    assert moved.GetPoint(ratio, math) == trans.OfPoint(q) by {
      FramePointIsOfPoint(trans, q.X, q.Y);
    }
    PointInFrame(arc, ratio, math);
    MultiplyComposes(transform, arc.Transform, q);
  }

  // ---------------------------------------------------------------- the three-point constructor

  /** The centre moved by the length of a vector along its direction lands at the vector's tip. */
  lemma AlongUnitRadius(center: Point3D, p: Point3D, math: MathLib)
    requires Lawful(math)
    requires Vector3D.Between(center, p).Length(math) != 0.0
    ensures FramePoint(center, Vector3D.Between(center, p).Normalize(math), Vector3D.Zero(),
                       center.DistanceTo(p, math), 0.0) == p
  {
    var v := Vector3D.Between(center, p);
    assert center.SquareDistanceTo(p) == v.SquareLength();
    assert center.DistanceTo(p, math) == v.Length(math);
    assert v != Vector3D.Zero() by {
      ZeroLength(math);
    }
    NormalizeIsUnit(v, math);
  }

  /**
   * The three-point constructor starts at angle 0 at the start point, is
   * centred equally far from the three points, has its radius the distance
   * to each, ends at the angle between the radii to the ends or at the rest
   * of the full turn (chosen by the sense of turn about the Z basis) with
   * the end angle in [0, 2 pi], and has an orthonormal X and Y basis, so all
   * its points are the radius away from the centre.
   */
  lemma ThroughPointsSpec(startPoint: Point3D, endPoint: Point3D, midPoint: Point3D, ratio: real, math: MathLib)
    requires Lawful(math)
    requires ThroughPointsDefined(startPoint, endPoint, midPoint, math)
    ensures var arc := ThroughPoints(startPoint, endPoint, midPoint, math);
      var center := ThreePointCenter(startPoint, endPoint, midPoint);
      var angle := Vector3D.Between(center, startPoint).AngleTo(Vector3D.Between(center, endPoint), math);
      && arc.Transform.IsAffine()
      && arc.StartAngle == 0.0
      && (TurnsWithNormal(startPoint, endPoint, midPoint, math) ==> arc.EndAngle == angle)
      && (!TurnsWithNormal(startPoint, endPoint, midPoint, math) ==> arc.EndAngle == 2.0 * math.PI - angle)
      && 0.0 <= arc.EndAngle <= 2.0 * math.PI
      && arc.Center().SquareDistanceTo(startPoint) == arc.Center().SquareDistanceTo(endPoint)
      && arc.Center().SquareDistanceTo(startPoint) == arc.Center().SquareDistanceTo(midPoint)
      && arc.Radius == arc.Center().DistanceTo(startPoint, math)
      && arc.Radius == arc.Center().DistanceTo(endPoint, math)
      && arc.Radius == arc.Center().DistanceTo(midPoint, math)
      && arc.Transform.BasisX().SquareLength() == 1.0 && arc.Transform.BasisY().SquareLength() == 1.0
      && arc.Transform.BasisX().DotProduct(arc.Transform.BasisY()) == 0.0
      && arc.StartPoint(math) == startPoint
      && arc.Center().DistanceTo(arc.GetPoint(ratio, math), math) == arc.Radius
  {
    var arc := ThroughPoints(startPoint, endPoint, midPoint, math);
    var center := ThreePointCenter(startPoint, endPoint, midPoint);
    var t := Triangles3D.Triangle3D(startPoint, endPoint, midPoint);
    assert center.SquareDistanceTo(startPoint) == center.SquareDistanceTo(endPoint)
        && center.SquareDistanceTo(startPoint) == center.SquareDistanceTo(midPoint) by {
      Triangles3D.CircumCenterSpec(t);
    }
    var radial := Vector3D.Between(center, startPoint);
    AngleToRange(radial, Vector3D.Between(center, endPoint), math);
    assert 0.0 <= arc.EndAngle <= 2.0 * math.PI;
    assert arc.Transform.BasisX().SquareLength() == 1.0 && arc.Transform.BasisY().SquareLength() == 1.0
        && arc.Transform.BasisX().DotProduct(arc.Transform.BasisY()) == 0.0 by {
      ThreePointFrame(startPoint, endPoint, midPoint, math);
    }
    assert arc.StartPoint(math) == startPoint by {
      ThreePointStart(startPoint, endPoint, midPoint, math);
    }
    assert 0.0 <= arc.Radius by {
      DistanceProperties(center, startPoint, math);
    }
    GetPointOnCircle(arc, ratio, math);
  }

  /** The three-point constructor's X and Y bases are orthogonal unit vectors. */
  lemma ThreePointFrame(startPoint: Point3D, endPoint: Point3D, midPoint: Point3D, math: MathLib)
    requires Lawful(math)
    requires ThroughPointsDefined(startPoint, endPoint, midPoint, math)
    ensures var arc := ThroughPoints(startPoint, endPoint, midPoint, math);
      && arc.Transform.BasisX().SquareLength() == 1.0 && arc.Transform.BasisY().SquareLength() == 1.0
      && arc.Transform.BasisX().DotProduct(arc.Transform.BasisY()) == 0.0
  {
    var center := ThreePointCenter(startPoint, endPoint, midPoint);
    var radial := Vector3D.Between(center, startPoint);
    var basisX := radial.Normalize(math);
    var basisZ := ThreePointNormal(startPoint, endPoint, midPoint, math);
    var w := basisZ.CrossProduct(basisX);
    assert radial != Vector3D.Zero() && w != Vector3D.Zero() by {
      ZeroLength(math);
    }
    NormalizeIsUnit(radial, math);
    NormalizeIsUnit(w, math);
    CrossProductProperties(basisZ, basisX);
    DotProductProperties(w, basisX);
    NormalizedPerpendicular(w, basisX, math);
    DotProductProperties(w.Normalize(math), basisX);
  }

  /** The three-point constructor's start point is the given start point. */
  lemma ThreePointStart(startPoint: Point3D, endPoint: Point3D, midPoint: Point3D, math: MathLib)
    requires Lawful(math)
    requires ThroughPointsDefined(startPoint, endPoint, midPoint, math)
    ensures ThroughPoints(startPoint, endPoint, midPoint, math).StartPoint(math) == startPoint
  {
    var arc := ThroughPoints(startPoint, endPoint, midPoint, math);
    var center := ThreePointCenter(startPoint, endPoint, midPoint);
    assert arc.AngleAt(0.0) == 0.0;
    assert arc.StartPoint(math) == FramePoint(center, arc.Transform.BasisX(), arc.Transform.BasisY(), arc.Radius, 0.0);
    AlongUnitRadius(center, startPoint, math);
  }
}
