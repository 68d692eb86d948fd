/**
 * Segment2D: a straight segment of the plane, stored as two points and a
 * frame. The public end points are the stored ones mapped through the frame;
 * the length is measured between the stored points.
 */
module Segments2D {
  import opened RealMath
  import opened Results
  import opened Primitives2D
  import opened Transforms2D
  import opened Lines2D

  datatype Segment2D = Segment2D(Start: Point2D, End: Point2D, Transform: Transform2D)
  {
    function StartPoint(): Point2D { Transform.OfPoint(Start) }

    function EndPoint(): Point2D { Transform.OfPoint(End) }

    /** The vector from the stored start to the stored end. */
    function Span(): Vector2D { Vector2D.Between(Start, End) }

    /** The distance between the stored (untransformed) end points. */
    function Length(math: MathLib): real { Start.DistanceTo(End, math) }

    /** The mapped span, normalised; the source divides by zero when it vanishes. */
    function Direction(math: MathLib): Vector2D
      requires Transform.OfVector(Span()).Length(math) != 0.0
    {
      Transform.OfVector(Span()).Normalize(math)
    }

    /** The stored points interpolated by `ratio`, then mapped through the frame. */
    function GetPoint(ratio: real): Point2D
    {
      Transform.OfPoint(Interpolation(Start, End, ratio))
    }

    /** The line through the start point along the direction. */
    function SupportLine(math: MathLib): Line2D
      requires Transform.OfVector(Span()).Length(math) != 0.0
    {
      FromPointAndDirection(StartPoint(), Direction(math))
    }

    /**
     * When `Intersect` is free of division by zero: the direction is defined
     * and, for an accepted crossing point, its distances to the two ends do
     * not both vanish.
     */
    predicate IntersectDefined(line: Line2D, math: MathLib)
    {
      && Transform.OfVector(Span()).Length(math) != 0.0
      && var crossing := line.Intersect(SupportLine(math));
         crossing.Some? ==>
           var d1 := crossing.value.DistanceTo(StartPoint(), math);
           var d2 := crossing.value.DistanceTo(EndPoint(), math);
           Abs(d1 + d2) - Length(math) < Tolerance ==> d1 + d2 != 0.0
    }

    /**
     * The crossing point of `line` with the segment's line, kept when its
     * distances d1, d2 to the two ends add up to less than the length plus
     * the tolerance, with U parameter d1 / (d1 + d2).
     */
    function Intersect(line: Line2D, math: MathLib): Option<IntersectResult<Point2D>>
      requires IntersectDefined(line, math)
    {
      match line.Intersect(SupportLine(math))
      case None => None
      case Some(p) =>
        var d1 := p.DistanceTo(StartPoint(), math);
        var d2 := p.DistanceTo(EndPoint(), math);
        if Abs(d1 + d2) - Length(math) < Tolerance then Some(IntersectResult(p, d1 / (d1 + d2), 0.0)) else None
    }

    /** Keeps the stored points; the frame becomes `transform * Transform`. */
    function CreateTransformed(transform: Transform2D): Segment2D
    {
      Segment2D(Start, End, transform.Multiply(Transform))
    }

    /**
     * Moves both stored points by `offsetDist` along the unit normal to the
     * stored span, into a new segment with the identity frame; the source
     * divides by zero for a segment of length zero.
     */
    function CreateOffset(offsetDist: real, math: MathLib): Segment2D
      requires Span().Vertical().Length(math) != 0.0
    {
      Segment2D(Start.Add(OffsetVector(offsetDist, math)), End.Add(OffsetVector(offsetDist, math)), Identity())
    }

    /** The vector `CreateOffset` moves both stored points by. */
    function OffsetVector(offsetDist: real, math: MathLib): Vector2D
      requires Span().Vertical().Length(math) != 0.0
    {
      Vector2D.Times(offsetDist, Span().Vertical().Normalize(math))
    }

    /** The mapped end points, swapped, in a new segment with the identity frame. */
    function CreateReversed(): Segment2D
    {
      Segment2D(EndPoint(), StartPoint(), Identity())
    }

    /**
     * Moves the stored start back and the stored end forward along the
     * mapped direction, by `start` and `end` times the stored length, into a
     * new segment with the identity frame.
     */
    function Extend(start: real, end: real, math: MathLib): Segment2D
      requires Transform.OfVector(Span()).Length(math) != 0.0
    {
      Segment2D(Start.Subtract(Vector2D.Times(start * Length(math), Direction(math))),
                End.Add(Vector2D.Times(end * Length(math), Direction(math))), Identity())
    }

    /**
     * The line through GetPoint(ratio) whose slope is the negative
     * reciprocal of the stored span's; the source divides by zero for a
     * horizontal span.
     */
    function GetVerticalLine(ratio: real := 0.5): Line2D
      requires End.Y - Start.Y != 0.0
    {
      FromSlopeAndPoint((Start.X - End.X) / (End.Y - Start.Y), GetPoint(ratio))
    }
  }

  /** The point `ratio` of the way from `p` to `q`: `p` at 0, `q` at 1. */
  function Interpolation(p: Point2D, q: Point2D, ratio: real): Point2D
  {
    Point2D(p.X + ratio * (q.X - p.X), p.Y + ratio * (q.Y - p.Y))
  }

  /** The constructor: the two points with the identity frame. */
  function Create(startPoint: Point2D, endPoint: Point2D): Segment2D
  {
    Segment2D(startPoint, endPoint, Identity())
  }

  // ---------------------------------------------------------------- end points and interpolation

  /** A new segment's public end points are the points it was built from. */
  lemma CreateSpec(startPoint: Point2D, endPoint: Point2D)
    ensures Create(startPoint, endPoint).StartPoint() == startPoint
    ensures Create(startPoint, endPoint).EndPoint() == endPoint
  {
    IdentityFixes(startPoint, Vector2D.Zero());
    IdentityFixes(endPoint, Vector2D.Zero());
  }

  /**
   * GetPoint runs from the start point at 0 to the end point at 1, moving
   * along the mapped span in proportion to the ratio, whatever the frame.
   */
  lemma GetPointSpec(s: Segment2D, ratio: real)
    ensures s.GetPoint(0.0) == s.StartPoint()
    ensures s.GetPoint(1.0) == s.EndPoint()
    ensures s.GetPoint(ratio) == s.StartPoint().Add(Vector2D.Times(ratio, Vector2D.Between(s.StartPoint(), s.EndPoint())))
  {
    assert Interpolation(s.Start, s.End, 0.0) == s.Start;
    assert Interpolation(s.Start, s.End, 1.0) == s.End;
    MappedInterpolation(s.Transform, s.Start, s.End, ratio);
  }

  /** Mapping an interpolated point through a frame interpolates the mapped points. */
  lemma MappedInterpolation(t: Transform2D, p: Point2D, q: Point2D, r: real)
    ensures t.OfPoint(Interpolation(p, q, r))
      == t.OfPoint(p).Add(Vector2D.Times(r, Vector2D.Between(t.OfPoint(p), t.OfPoint(q))))
  {
    MappedInterpolationX(t, p, q, r);
    MappedInterpolationY(t, p, q, r);
  }

  /** The X coordinate of `MappedInterpolation`. */
  lemma MappedInterpolationX(t: Transform2D, p: Point2D, q: Point2D, r: real)
    ensures t.OfPoint(Interpolation(p, q, r)).X == t.OfPoint(p).X + r * (t.OfPoint(q).X - t.OfPoint(p).X)
  {
    OfPointComponents(t, p);
    OfPointComponents(t, q);
    OfPointComponents(t, Interpolation(p, q, r));
    InterpolatedRow(t.OriginX, t.BasisXX, t.BasisYX, p, q, r);
  }

  /** The Y coordinate of `MappedInterpolation`. */
  lemma MappedInterpolationY(t: Transform2D, p: Point2D, q: Point2D, r: real)
    ensures t.OfPoint(Interpolation(p, q, r)).Y == t.OfPoint(p).Y + r * (t.OfPoint(q).Y - t.OfPoint(p).Y)
  {
    OfPointComponents(t, p);
    OfPointComponents(t, q);
    OfPointComponents(t, Interpolation(p, q, r));
    InterpolatedRow(t.OriginY, t.BasisXY, t.BasisYY, p, q, r);
  }

  /** An affine row o + x a + y b commutes with linear interpolation. */
  lemma InterpolatedRow(o: real, a: real, b: real, p: Point2D, q: Point2D, r: real)
    ensures o + (p.X + r * (q.X - p.X)) * a + (p.Y + r * (q.Y - p.Y)) * b
      == (o + p.X * a + p.Y * b) + r * ((o + q.X * a + q.Y * b) - (o + p.X * a + p.Y * b))
  {
  }

  // ---------------------------------------------------------------- reversal and transformation

  /**
   * Reversing swaps the public end points, runs the interpolation backwards
   * and, reversed again, gives back the public end points.
   */
  lemma ReversedSpec(s: Segment2D, ratio: real)
    ensures s.CreateReversed().StartPoint() == s.EndPoint()
    ensures s.CreateReversed().EndPoint() == s.StartPoint()
    ensures s.CreateReversed().GetPoint(ratio) == s.GetPoint(1.0 - ratio)
    ensures s.CreateReversed().CreateReversed() == Create(s.StartPoint(), s.EndPoint())
  {
    var r := s.CreateReversed();
    CreateSpec(s.EndPoint(), s.StartPoint());
    CreateSpec(s.StartPoint(), s.EndPoint());
    GetPointSpec(r, ratio);
    GetPointSpec(s, 1.0 - ratio);
    var p, q := s.StartPoint(), s.EndPoint();
    assert r.StartPoint() == q && r.EndPoint() == p;
    assert r.GetPoint(ratio) == Point2D(q.X + ratio * (p.X - q.X), q.Y + ratio * (p.Y - q.Y));
    assert s.GetPoint(1.0 - ratio) == Point2D(p.X + (1.0 - ratio) * (q.X - p.X), p.Y + (1.0 - ratio) * (q.Y - p.Y));
    assert q.X + ratio * (p.X - q.X) == p.X + (1.0 - ratio) * (q.X - p.X);
    assert q.Y + ratio * (p.Y - q.Y) == p.Y + (1.0 - ratio) * (q.Y - p.Y);
  }

  /**
   * For a frame with homogeneous row (0, 0, 1), transforming maps every
   * point of the segment, the end points included, and keeps the length.
   */
  lemma TransformedSpec(s: Segment2D, t: Transform2D, ratio: real, math: MathLib)
    requires s.Transform.IsAffine()
    ensures s.CreateTransformed(t).StartPoint() == t.OfPoint(s.StartPoint())
    ensures s.CreateTransformed(t).EndPoint() == t.OfPoint(s.EndPoint())
    ensures s.CreateTransformed(t).GetPoint(ratio) == t.OfPoint(s.GetPoint(ratio))
    ensures s.CreateTransformed(t).Length(math) == s.Length(math)
  {
    TransformedPoint(s, t, 0.0);
    TransformedPoint(s, t, 1.0);
    TransformedPoint(s, t, ratio);
    GetPointSpec(s, ratio);
    GetPointSpec(s.CreateTransformed(t), ratio);
  }

  /** One interpolated point of the transformed segment is the transformed point. */
  lemma TransformedPoint(s: Segment2D, t: Transform2D, ratio: real)
    requires s.Transform.IsAffine()
    ensures s.CreateTransformed(t).GetPoint(ratio) == t.OfPoint(s.GetPoint(ratio))
  {
    MultiplyComposes(t, s.Transform, Interpolation(s.Start, s.End, ratio));
  }

  // ---------------------------------------------------------------- offset

  /**
   * The offset moves both stored points by one vector, at right angles to
   * the stored span and |offsetDist| long, so the length is kept; the new
   * segment has the identity frame.
   */
  lemma OffsetSpec(s: Segment2D, offsetDist: real, math: MathLib)
    requires Lawful(math) && s.Start != s.End
    ensures s.Span().Vertical().Length(math) != 0.0
    ensures s.CreateOffset(offsetDist, math).StartPoint() == s.Start.Add(s.OffsetVector(offsetDist, math))
    ensures s.CreateOffset(offsetDist, math).EndPoint() == s.End.Add(s.OffsetVector(offsetDist, math))
    ensures s.CreateOffset(offsetDist, math).Length(math) == s.Length(math)
    ensures s.OffsetVector(offsetDist, math).DotProduct(s.Span()) == 0.0
    ensures s.OffsetVector(offsetDist, math).Length(math) == Abs(offsetDist)
  {
    var w := s.Span().Vertical();
    assert w != Vector2D.Zero() by {
      BetweenProperties(s.Start, s.End);
    }
    NormalizeIsUnit(w, math);
    var v := s.OffsetVector(offsetDist, math);
    CreateSpec(s.Start.Add(v), s.End.Add(v));
    assert s.Start.Add(v).SquareDistanceTo(s.End.Add(v)) == s.Start.SquareDistanceTo(s.End);
    OffsetPerpendicular(s.Span(), w.Normalize(math), w.Length(math), offsetDist);
    UnitTimes(offsetDist, w.Normalize(math), math);
  }

  /** A multiple of the normalised quarter turn of a span is at right angles to the span. */
  lemma OffsetPerpendicular(span: Vector2D, u: Vector2D, l: real, k: real)
    requires l != 0.0 && u.Scaled(l) == span.Vertical()
    ensures Vector2D.Times(k, u).DotProduct(span) == 0.0
  {
    VerticalProperties(span);
    assert l * u.DotProduct(span) == span.Vertical().DotProduct(span);
    ZeroFactor(l, u.DotProduct(span));
    assert Vector2D.Times(k, u).DotProduct(span) == k * u.DotProduct(span);
  }

  /** k times a unit vector is |k| long. */
  lemma UnitTimes(k: real, u: Vector2D, math: MathLib)
    requires Lawful(math) && u.SquareLength() == 1.0
    ensures Vector2D.Times(k, u).Length(math) == Abs(k)
  {
    assert Vector2D.Times(k, u).SquareLength() == k * k * u.SquareLength();
    assert Vector2D.Times(k, u).SquareLength() == k * k;
    SqrtOfSquare(math, k);
  }

  // ---------------------------------------------------------------- intersection with a line

  /**
   * A line parallel to the segment's line gives no result. A result lies on
   * both lines, its distances to the ends add up to less than the length
   * plus the tolerance, and its U parameter is d1 / (d1 + d2) in [0, 1].
   */
  lemma IntersectSpec(s: Segment2D, line: Line2D, math: MathLib)
    requires Lawful(math) && s.IntersectDefined(line, math)
    ensures line.IsParallel(s.SupportLine(math)) ==> s.Intersect(line, math).None?
    ensures s.Intersect(line, math).Some? ==>
      var hit := s.Intersect(line, math).value;
      var d1 := hit.Point.DistanceTo(s.StartPoint(), math);
      var d2 := hit.Point.DistanceTo(s.EndPoint(), math);
      && line.IsInner(hit.Point) && s.SupportLine(math).IsInner(hit.Point)
      && d1 + d2 < s.Length(math) + Tolerance
      && hit.UParameter * (d1 + d2) == d1
      && 0.0 <= hit.UParameter <= 1.0
  {
    Lines2D.IntersectSpec(line, s.SupportLine(math), Point2D.Zero());
    if s.Intersect(line, math).Some? {
      IntersectRatio(s, line, math);
    }
  }

  /**
   * Conversely, in the identity frame a line that is not parallel to the
   * segment and passes through the point at `ratio` in [0, 1] is found there,
   * with that ratio as its U parameter.
   */
  lemma IntersectFindsCrossing(s: Segment2D, line: Line2D, ratio: real, math: MathLib)
    requires Lawful(math) && s.Transform == Identity() && s.Start != s.End && s.IntersectDefined(line, math)
    requires !line.IsParallel(s.SupportLine(math))
    requires 0.0 <= ratio <= 1.0 && line.IsInner(s.GetPoint(ratio))
    ensures s.Intersect(line, math) == Some(IntersectResult(s.GetPoint(ratio), ratio, 0.0))
  {
    var q := s.GetPoint(ratio);
    CrossingOnSupport(s, ratio, math);
    Lines2D.IntersectSpec(line, s.SupportLine(math), q);
    assert line.Intersect(s.SupportLine(math)) == Some(q);
    CrossingDistances(s, ratio, math);
    var d1 := q.DistanceTo(s.StartPoint(), math);
    var d2 := q.DistanceTo(s.EndPoint(), math);
    var l := s.Length(math);
    assert 0.0 <= l by {
      DistanceProperties(s.Start, s.End, math);
    }
    assert d1 + d2 == l;
    assert Abs(d1 + d2) - l < Tolerance;
    assert d1 + d2 != 0.0;
    DivUnique(d1, d1 + d2, ratio);
  }

  /** In the identity frame the point at `ratio` lies on the segment's line. */
  lemma CrossingOnSupport(s: Segment2D, ratio: real, math: MathLib)
    requires Lawful(math) && s.Transform == Identity() && s.Start != s.End
    ensures s.Transform.OfVector(s.Span()).Length(math) != 0.0
    ensures s.SupportLine(math).IsInner(s.GetPoint(ratio))
  {
    ExtendFrame(s, math);
    IdentityFixes(s.Start, s.Span());
    IdentityFixes(s.End, s.Span());
    GetPointSpec(s, ratio);
    assert s.GetPoint(ratio) == s.Start.Add(Vector2D.Times(ratio, s.Span()));
    OnSupportLine(s.Start, s.Direction(math), s.Length(math), ratio, s.Span(), s.GetPoint(ratio));
  }

  /** In the identity frame the point at `ratio` in [0, 1] is `ratio` of the length from the start and the rest from the end. */
  lemma CrossingDistances(s: Segment2D, ratio: real, math: MathLib)
    requires Lawful(math) && s.Transform == Identity() && 0.0 <= ratio <= 1.0
    ensures s.GetPoint(ratio).DistanceTo(s.StartPoint(), math) == ratio * s.Length(math)
    ensures s.GetPoint(ratio).DistanceTo(s.EndPoint(), math) == (1.0 - ratio) * s.Length(math)
  {
    IdentityFixes(s.Start, s.Span());
    IdentityFixes(s.End, s.Span());
    IdentityFixes(Interpolation(s.Start, s.End, ratio), s.Span());
    InterpolationDistances(s.Start, s.End, ratio, math);
  }

  /** The point at `ratio` in [0, 1] between p and q is `ratio` of the distance from p and the rest from q. */
  lemma InterpolationDistances(p: Point2D, q: Point2D, ratio: real, math: MathLib)
    requires Lawful(math) && 0.0 <= ratio <= 1.0
    ensures Interpolation(p, q, ratio).DistanceTo(p, math) == ratio * p.DistanceTo(q, math)
    ensures Interpolation(p, q, ratio).DistanceTo(q, math) == (1.0 - ratio) * p.DistanceTo(q, math)
  {
    var span := Vector2D.Between(p, q);
    var m := Interpolation(p, q, ratio);
    assert p.DistanceTo(q, math) == span.Length(math) by {
      DistanceProperties(p, q, math);
    }
    assert m.DistanceTo(p, math) == ratio * span.Length(math) by {
      InterpolationFromStart(p, q, ratio);
      DistanceAlong(p, span, ratio, math);
      DistanceProperties(m, p, math);
    }
    assert m.DistanceTo(q, math) == (1.0 - ratio) * span.Length(math) by {
      InterpolationToEnd(p, q, ratio);
      DistanceAlong(m, span, 1.0 - ratio, math);
    }
  }

  lemma InterpolationFromStart(p: Point2D, q: Point2D, ratio: real)
    ensures Interpolation(p, q, ratio) == p.Add(Vector2D.Times(ratio, Vector2D.Between(p, q)))
  {
  }

  lemma InterpolationToEnd(p: Point2D, q: Point2D, ratio: real)
    ensures q == Interpolation(p, q, ratio).Add(Vector2D.Times(1.0 - ratio, Vector2D.Between(p, q)))
  {
    assert p.X + ratio * (q.X - p.X) + (1.0 - ratio) * (q.X - p.X) == q.X;
    assert p.Y + ratio * (q.Y - p.Y) + (1.0 - ratio) * (q.Y - p.Y) == q.Y;
  }

  /** The point `ratio` of the way along the span lies on the line through the start with the span's direction. */
  lemma OnSupportLine(start: Point2D, dir: Vector2D, l: real, ratio: real, span: Vector2D, q: Point2D)
    requires dir.Scaled(l) == span && q == start.Add(Vector2D.Times(ratio, span))
    ensures FromPointAndDirection(start, dir).IsInner(q)
  {
    assert dir.Y * (ratio * (dir.X * l)) == dir.X * (ratio * (dir.Y * l));
  }

  /** Moving k >= 0 times along a vector covers k times its length. */
  lemma DistanceAlong(p: Point2D, v: Vector2D, k: real, math: MathLib)
    requires Lawful(math) && 0.0 <= k
    ensures p.DistanceTo(p.Add(Vector2D.Times(k, v)), math) == k * v.Length(math)
  {
    var l := v.Length(math);
    var kl := k * l;
    var sq := p.SquareDistanceTo(p.Add(Vector2D.Times(k, v)));
    LengthProperties(v, math);
    MulNonNegative(k, l);
    assert sq == k * k * v.SquareLength();
    assert sq == kl * kl;
    SqrtOfNonNegativeSquare(math, kl);
    assert p.DistanceTo(p.Add(Vector2D.Times(k, v)), math) == math.Sqrt(sq);
  }

  /** An accepted crossing point has its U parameter in [0, 1], splitting d1 + d2 at d1. */
  lemma IntersectRatio(s: Segment2D, line: Line2D, math: MathLib)
    requires Lawful(math) && s.IntersectDefined(line, math) && s.Intersect(line, math).Some?
    ensures
      var hit := s.Intersect(line, math).value;
      var d1 := hit.Point.DistanceTo(s.StartPoint(), math);
      var d2 := hit.Point.DistanceTo(s.EndPoint(), math);
      && hit.Point == line.Intersect(s.SupportLine(math)).value
      && d1 + d2 < s.Length(math) + Tolerance
      && hit.UParameter * (d1 + d2) == d1
      && 0.0 <= hit.UParameter <= 1.0
  {
    var p := line.Intersect(s.SupportLine(math)).value;
    var d1 := p.DistanceTo(s.StartPoint(), math);
    var d2 := p.DistanceTo(s.EndPoint(), math);
    assert 0.0 <= d1 by { DistanceProperties(p, s.StartPoint(), math); }
    assert 0.0 <= d2 by { DistanceProperties(p, s.EndPoint(), math); }
    assert s.Intersect(line, math) == Some(IntersectResult(p, d1 / (d1 + d2), 0.0));
    RatioInUnit(d1, d2);
  }

  /** For non-negative d1, d2 not both zero, d1 / (d1 + d2) lies in [0, 1] and scales back to d1. */
  lemma RatioInUnit(d1: real, d2: real)
    requires 0.0 <= d1 && 0.0 <= d2 && d1 + d2 != 0.0
    ensures 0.0 <= d1 / (d1 + d2) <= 1.0
    ensures d1 / (d1 + d2) * (d1 + d2) == d1
  {
    DivMul(d1, d1 + d2);
    DivPositive(1.0, d1 + d2);
    assert d1 / (d1 + d2) == d1 * (1.0 / (d1 + d2)) by {
      DivScale(d1, d1 + d2);
    }
    MulNonNegative(d1, 1.0 / (d1 + d2));
    MulNonNegative(d2, 1.0 / (d1 + d2));
    assert 1.0 - d1 / (d1 + d2) == d2 * (1.0 / (d1 + d2)) by {
      DivMul(1.0, d1 + d2);
    }
  }

  // ---------------------------------------------------------------- extension and perpendicular

  /**
   * In the identity frame, extending by `start` and `end` gives the points
   * at ratios -start and 1 + end of the original segment, and extending by
   * nothing gives the segment back.
   */
  lemma ExtendSpec(s: Segment2D, start: real, end: real, math: MathLib)
    requires Lawful(math) && s.Transform == Identity() && s.Start != s.End
    ensures s.Transform.OfVector(s.Span()).Length(math) != 0.0
    ensures s.Extend(start, end, math).StartPoint() == s.GetPoint(-start)
    ensures s.Extend(start, end, math).EndPoint() == s.GetPoint(1.0 + end)
    ensures s.Extend(0.0, 0.0, math) == s
  {
    ExtendFrame(s, math);
    var e := s.Extend(start, end, math);
    ExtendedPoints(s.Start, s.End, start, end, s.Length(math), s.Direction(math));
    ExtendedPoints(s.Start, s.End, 0.0, 0.0, s.Length(math), s.Direction(math));
    assert e.Start == Interpolation(s.Start, s.End, -start);
    assert e.End == Interpolation(s.Start, s.End, 1.0 + end);
    IdentityFixes(e.Start, s.Span());
    IdentityFixes(e.End, s.Span());
    assert s.GetPoint(-start) == e.Start;
  }

  /** Stepping back and forward from the ends by multiples of the span lands on the interpolated points. */
  lemma ExtendedPoints(p: Point2D, q: Point2D, start: real, end: real, l: real, d: Vector2D)
    requires d.Scaled(l) == Vector2D.Between(p, q)
    ensures p.Subtract(Vector2D.Times(start * l, d)) == Interpolation(p, q, -start)
    ensures q.Add(Vector2D.Times(end * l, d)) == Interpolation(p, q, 1.0 + end)
  {
    ExtendedStep(start, l, d, Vector2D.Between(p, q));
    ExtendedStep(end, l, d, Vector2D.Between(p, q));
  }

  /** In the identity frame the direction, scaled by the stored length, is the stored span. */
  lemma ExtendFrame(s: Segment2D, math: MathLib)
    requires Lawful(math) && s.Transform == Identity() && s.Start != s.End
    ensures s.Transform.OfVector(s.Span()).Length(math) != 0.0
    ensures s.Direction(math).Scaled(s.Length(math)) == s.Span()
  {
    var sp := s.Span();
    IdentityFixes(s.Start, sp);
    assert sp != Vector2D.Zero() by {
      BetweenProperties(s.Start, s.End);
    }
    NormalizeIsUnit(sp, math);
    assert s.Start.SquareDistanceTo(s.End) == sp.SquareLength();
  }

  /** Moving by k times the length along the direction is moving by k times the span. */
  lemma ExtendedStep(k: real, l: real, d: Vector2D, sp: Vector2D)
    requires d.Scaled(l) == sp
    ensures Vector2D.Times(k * l, d) == Vector2D.Times(k, sp)
  {
    assert (k * l) * d.X == k * (l * d.X);
    assert (k * l) * d.Y == k * (l * d.Y);
  }

  /**
   * The perpendicular line passes through GetPoint(ratio), and in the
   * stored coordinates it crosses the segment at right angles: any two of
   * its points differ by a vector perpendicular to the span.
   */
  lemma GetVerticalLineSpec(s: Segment2D, ratio: real)
    requires s.End.Y - s.Start.Y != 0.0
    ensures s.GetVerticalLine(ratio).IsInner(s.GetPoint(ratio))
    ensures forall p, q | s.GetVerticalLine(ratio).IsInner(p) && s.GetVerticalLine(ratio).IsInner(q) ::
      Vector2D.Between(p, q).DotProduct(s.Span()) == 0.0
  {
    var l := s.GetVerticalLine(ratio);
    var dx, dy := s.End.X - s.Start.X, s.End.Y - s.Start.Y;
    var k := (s.Start.X - s.End.X) / (s.End.Y - s.Start.Y);
    assert k * dy == -dx by {
      DivMul(s.Start.X - s.End.X, s.End.Y - s.Start.Y);
    }
    forall p, q | l.IsInner(p) && l.IsInner(q)
      ensures Vector2D.Between(p, q).DotProduct(s.Span()) == 0.0
    {
      PerpendicularStep(k, dx, dy, q.X - p.X, q.Y - p.Y);
    }
  }

  /** A step (u, v) along a line of slope k, with k dy = -dx, is perpendicular to (dx, dy). */
  lemma PerpendicularStep(k: real, dx: real, dy: real, u: real, v: real)
    requires k * dy == -dx && k * u - v == 0.0
    ensures u * dx + v * dy == 0.0
  {
    assert v == k * u;
    assert u * dx + v * dy == u * dx + u * (k * dy);
  }
}
