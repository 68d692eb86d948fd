/**
 * Segment3D: the straight segment of space between a start and an end point,
 * with interpolation, extension, reversal, transformation and offsetting.
 */
module Segments3D {
  import opened RealMath
  import opened Primitives3D
  import opened Transforms3D

  datatype Segment3D = Segment3D(StartPoint: Point3D, EndPoint: Point3D)
  {
    /** The vector from the start point to the end point. */
    function Span(): Vector3D { Vector3D.Between(StartPoint, EndPoint) }

    function Length(math: MathLib): real { StartPoint.DistanceTo(EndPoint, math) }

    /** The normalised span; the source divides by zero for a segment of length zero. */
    function Direction(math: MathLib): Vector3D
      requires Span().Length(math) != 0.0
    {
      Span().Normalize(math)
    }

    /** Linear interpolation: ratio 0 is the start point and ratio 1 the end point. */
    function GetPoint(ratio: real): Point3D
    {
      Point3D(StartPoint.X + ratio * (EndPoint.X - StartPoint.X),
              StartPoint.Y + ratio * (EndPoint.Y - StartPoint.Y),
              StartPoint.Z + ratio * (EndPoint.Z - StartPoint.Z))
    }

    /** Moves the start back by `start` lengths and the end forward by `end` lengths, along the direction. */
    function Extend(start: real, end: real, math: MathLib): Segment3D
      requires Span().Length(math) != 0.0
    {
      var startPoint := StartPoint.Subtract(Vector3D.Times(start * Length(math), Direction(math)));
      var endPoint := EndPoint.Add(Vector3D.Times(end * Length(math), Direction(math)));
      Segment3D(startPoint, endPoint)
    }

    function CreateTransformed(transform: Transform3D): Segment3D
    {
      Segment3D(transform.OfPoint(StartPoint), transform.OfPoint(EndPoint))
    }

    function CreateReversed(): Segment3D { Segment3D(EndPoint, StartPoint) }

    /**
     * Translates both end points by `offsetDist` along the unit vector
     * Direction x normal; the source divides by zero when that cross
     * product vanishes.
     */
    function CreateOffset(offsetDist: real, normal: Vector3D, math: MathLib): Segment3D
      requires Span().Length(math) != 0.0 && Direction(math).CrossProduct(normal).Length(math) != 0.0
    {
      var transform := CreateTranslation(Vector3D.Times(offsetDist, Direction(math).CrossProduct(normal).Normalize(math)));
      Segment3D(transform.OfPoint(StartPoint), transform.OfPoint(EndPoint))
    }

    /** The vector by which `CreateOffset` moves both end points. */
    function OffsetVector(offsetDist: real, normal: Vector3D, math: MathLib): Vector3D
      requires Span().Length(math) != 0.0 && Direction(math).CrossProduct(normal).Length(math) != 0.0
    {
      Vector3D.Times(offsetDist, Direction(math).CrossProduct(normal).Normalize(math))
    }
  }

  // ---------------------------------------------------------------- interpolation

  /** GetPoint starts at the start point, ends at the end point and moves along the span in proportion to the ratio. */
  lemma GetPointSpec(s: Segment3D, ratio: real)
    ensures s.GetPoint(0.0) == s.StartPoint
    ensures s.GetPoint(1.0) == s.EndPoint
    ensures Vector3D.Between(s.StartPoint, s.GetPoint(ratio)) == Vector3D.Times(ratio, s.Span())
  {
  }

  /** Two interpolated points are |b - a| lengths apart. */
  lemma GetPointDistance(s: Segment3D, a: real, b: real, math: MathLib)
    requires Lawful(math)
    ensures s.GetPoint(a).DistanceTo(s.GetPoint(b), math) == Abs(b - a) * s.Length(math)
  {
    GetPointStep(s, a, b);
    ScaledSpanDistance(s.GetPoint(a), s.GetPoint(b), b - a, s.StartPoint, s.EndPoint, math);
  }

  lemma GetPointStep(s: Segment3D, a: real, b: real)
    ensures Vector3D.Between(s.GetPoint(a), s.GetPoint(b)) == Vector3D.Times(b - a, s.Span())
  {
  }

  /** Two points k spans apart are |k| times as far apart as the ends of the span. */
  lemma ScaledSpanDistance(p: Point3D, q: Point3D, k: real, start: Point3D, end: Point3D, math: MathLib)
    requires Lawful(math)
    requires Vector3D.Between(p, q) == Vector3D.Times(k, Vector3D.Between(start, end))
    ensures p.DistanceTo(q, math) == Abs(k) * start.DistanceTo(end, math)
  {
    var x := start.SquareDistanceTo(end);
    SquareDistanceProperties(start, end);
    SqrtScale(math, k, x);
    ScaledSquare(p, q, k, start, end);
    RootOfScaled(p, q, k, x, math);
  }

  lemma RootOfScaled(p: Point3D, q: Point3D, k: real, x: real, math: MathLib)
    requires p.SquareDistanceTo(q) == k * k * x
    requires math.Sqrt(k * k * x) == Abs(k) * math.Sqrt(x)
    ensures p.DistanceTo(q, math) == Abs(k) * math.Sqrt(x)
  {
  }

  lemma ScaledSquare(p: Point3D, q: Point3D, k: real, start: Point3D, end: Point3D)
    requires Vector3D.Between(p, q) == Vector3D.Times(k, Vector3D.Between(start, end))
    ensures p.SquareDistanceTo(q) == k * k * start.SquareDistanceTo(end)
  {
    var v := Vector3D.Between(start, end);
    assert p.SquareDistanceTo(q) == (k * v.X) * (k * v.X) + (k * v.Y) * (k * v.Y) + (k * v.Z) * (k * v.Z);
  }

  // ---------------------------------------------------------------- direction and extension

  /** For a proper segment the direction is a unit vector that the length scales back to the span. */
  lemma DirectionSpec(s: Segment3D, math: MathLib)
    requires Lawful(math) && s.StartPoint != s.EndPoint
    ensures s.Span().Length(math) != 0.0
    ensures s.Length(math) == s.Span().Length(math)
    ensures s.Direction(math).Length(math) == 1.0
    ensures s.Direction(math).Scaled(s.Length(math)) == s.Span()
  {
    BetweenProperties(s.StartPoint, s.EndPoint);
    assert s.Span() != Vector3D.Zero();
    NormalizeIsUnit(s.Span(), math);
  }

  /** Extending moves the end points to the interpolation ratios -start and 1 + end. */
  lemma ExtendSpec(s: Segment3D, start: real, end: real, math: MathLib)
    requires Lawful(math) && s.StartPoint != s.EndPoint
    ensures s.Span().Length(math) != 0.0
    ensures s.Extend(start, end, math) == Segment3D(s.GetPoint(-start), s.GetPoint(1.0 + end))
  {
    DirectionSpec(s, math);
    ExtendAlongSpan(s, start, end, math);
  }

  lemma ExtendAlongSpan(s: Segment3D, start: real, end: real, math: MathLib)
    requires s.Span().Length(math) != 0.0 && s.Direction(math).Scaled(s.Length(math)) == s.Span()
    ensures s.Extend(start, end, math) == Segment3D(s.GetPoint(-start), s.GetPoint(1.0 + end))
  {
    ExtendedStart(s, start, end, math);
    ExtendedEnd(s, start, end, math);
  }

  lemma ExtendedStart(s: Segment3D, start: real, end: real, math: MathLib)
    requires s.Span().Length(math) != 0.0 && s.Direction(math).Scaled(s.Length(math)) == s.Span()
    ensures s.Extend(start, end, math).StartPoint == s.GetPoint(-start)
  {
    ScaleAlong(start, s.Length(math), s.Direction(math), s.Span());
  }

  lemma ExtendedEnd(s: Segment3D, start: real, end: real, math: MathLib)
    requires s.Span().Length(math) != 0.0 && s.Direction(math).Scaled(s.Length(math)) == s.Span()
    ensures s.Extend(start, end, math).EndPoint == s.GetPoint(1.0 + end)
  {
    ScaleAlong(end, s.Length(math), s.Direction(math), s.Span());
  }

  lemma ScaleAlong(k: real, l: real, d: Vector3D, span: Vector3D)
    requires d.Scaled(l) == span
    ensures Vector3D.Times(k * l, d) == Vector3D.Times(k, span)
  {
    assert (k * l) * d.X == k * (l * d.X);
    assert (k * l) * d.Y == k * (l * d.Y);
    assert (k * l) * d.Z == k * (l * d.Z);
  }

  /** Extending by zero at both ends changes nothing, and the extended length is (1 + start + end) lengths. */
  lemma ExtendLength(s: Segment3D, start: real, end: real, math: MathLib)
    requires Lawful(math) && s.StartPoint != s.EndPoint
    ensures s.Span().Length(math) != 0.0
    ensures s.Extend(0.0, 0.0, math) == s
    ensures s.Extend(start, end, math).Length(math) == Abs(1.0 + start + end) * s.Length(math)
  {
    ExtendSpec(s, 0.0, 0.0, math);
    ExtendSpec(s, start, end, math);
    GetPointDistance(s, -start, 1.0 + end, math);
  }

  // ---------------------------------------------------------------- reversal and transformation

  /** Reversing swaps the ends, runs the interpolation backwards, keeps the length and undoes itself. */
  lemma ReversedSpec(s: Segment3D, ratio: real, math: MathLib)
    ensures s.CreateReversed().StartPoint == s.EndPoint && s.CreateReversed().EndPoint == s.StartPoint
    ensures s.CreateReversed().GetPoint(ratio) == s.GetPoint(1.0 - ratio)
    ensures s.CreateReversed().Length(math) == s.Length(math)
    ensures s.CreateReversed().CreateReversed() == s
  {
    DistanceSymmetric(s.StartPoint, s.EndPoint, math);
    var p, q := s.StartPoint, s.EndPoint;
    assert q.X + ratio * (p.X - q.X) == p.X + (1.0 - ratio) * (q.X - p.X);
    assert q.Y + ratio * (p.Y - q.Y) == p.Y + (1.0 - ratio) * (q.Y - p.Y);
    assert q.Z + ratio * (p.Z - q.Z) == p.Z + (1.0 - ratio) * (q.Z - p.Z);
    assert s.CreateReversed().GetPoint(ratio) == Point3D(q.X + ratio * (p.X - q.X), q.Y + ratio * (p.Y - q.Y), q.Z + ratio * (p.Z - q.Z));
  }

  /** Transforming the end points transforms every interpolated point. */
  lemma TransformedSpec(s: Segment3D, t: Transform3D, ratio: real)
    ensures s.CreateTransformed(t).GetPoint(ratio) == t.OfPoint(s.GetPoint(ratio))
  {
    OfPointComponents(t, s.StartPoint);
    OfPointComponents(t, s.EndPoint);
    OfPointComponents(t, s.GetPoint(ratio));
    var p, q, r := s.StartPoint, s.EndPoint, ratio;
    AffineRow(t.OriginX, t.BasisXX, t.BasisYX, t.BasisZX, p, q, r);
    AffineRow(t.OriginY, t.BasisXY, t.BasisYY, t.BasisZY, p, q, r);
    AffineRow(t.OriginZ, t.BasisXZ, t.BasisYZ, t.BasisZZ, p, q, r);
  }

  /** An affine row o + x a + y b + z c commutes with linear interpolation. */
  lemma AffineRow(o: real, a: real, b: real, c: real, p: Point3D, q: Point3D, r: real)
    ensures o + (p.X + r * (q.X - p.X)) * a + (p.Y + r * (q.Y - p.Y)) * b + (p.Z + r * (q.Z - p.Z)) * c
      == (o + p.X * a + p.Y * b + p.Z * c) + r * ((o + q.X * a + q.Y * b + q.Z * c) - (o + p.X * a + p.Y * b + p.Z * c))
  {
  }

  // ---------------------------------------------------------------- offset

  /** The offset moves both ends by the same vector, so the span and the length are kept. */
  lemma OffsetTranslates(s: Segment3D, offsetDist: real, normal: Vector3D, math: MathLib)
    requires s.Span().Length(math) != 0.0 && s.Direction(math).CrossProduct(normal).Length(math) != 0.0
    ensures s.CreateOffset(offsetDist, normal, math).StartPoint == s.StartPoint.Add(s.OffsetVector(offsetDist, normal, math))
    ensures s.CreateOffset(offsetDist, normal, math).EndPoint == s.EndPoint.Add(s.OffsetVector(offsetDist, normal, math))
    ensures s.CreateOffset(offsetDist, normal, math).Span() == s.Span()
    ensures s.CreateOffset(offsetDist, normal, math).Length(math) == s.Length(math)
  {
    var w := s.OffsetVector(offsetDist, normal, math);
    TranslationMoves(w, s.StartPoint, w);
    TranslationMoves(w, s.EndPoint, w);
    assert s.CreateOffset(offsetDist, normal, math) == Segment3D(s.StartPoint.Add(w), s.EndPoint.Add(w));
    assert s.StartPoint.Add(w).SquareDistanceTo(s.EndPoint.Add(w)) == s.StartPoint.SquareDistanceTo(s.EndPoint);
  }

  /** The offset vector is perpendicular to the segment and |offsetDist| long. */
  lemma OffsetVectorSpec(s: Segment3D, offsetDist: real, normal: Vector3D, math: MathLib)
    requires Lawful(math)
    requires s.Span().Length(math) != 0.0 && s.Direction(math).CrossProduct(normal).Length(math) != 0.0
    ensures s.OffsetVector(offsetDist, normal, math).DotProduct(s.Span()) == 0.0
    ensures s.OffsetVector(offsetDist, normal, math).Length(math) == Abs(offsetDist)
  {
    var c := s.Direction(math).CrossProduct(normal);
    CrossPerpendicularLeft(s.Direction(math), normal);
    LengthProperties(s.Span(), math);
    LengthProperties(c, math);
    NormalizeIsUnit(s.Span(), math);
    NormalizeIsUnit(c, math);
    PerpendicularToSpan(c, s.Direction(math), s.Span(), s.Span().Length(math));
    NormalizedPerpendicular(c, s.Span(), c.Length(math), c.Normalize(math));
    TimesUnit(offsetDist, c.Normalize(math), math);
  }

  /** A vector perpendicular to the direction is perpendicular to the span it scales to. */
  lemma PerpendicularToSpan(c: Vector3D, d: Vector3D, span: Vector3D, l: real)
    requires d.Scaled(l) == span && c.DotProduct(d) == 0.0
    ensures c.DotProduct(span) == 0.0
  {
    assert c.DotProduct(span) == l * c.DotProduct(d);
  }

  /** Dividing a vector perpendicular to the span by its length keeps it perpendicular. */
  lemma NormalizedPerpendicular(c: Vector3D, span: Vector3D, l: real, u: Vector3D)
    requires l != 0.0 && u.Scaled(l) == c && c.DotProduct(span) == 0.0
    ensures u.DotProduct(span) == 0.0
  {
    assert l * u.DotProduct(span) == c.DotProduct(span);
    ZeroFactor(l, u.DotProduct(span));
  }

  /** A multiple k of a unit vector is |k| long and keeps perpendicularity. */
  lemma TimesUnit(k: real, u: Vector3D, math: MathLib)
    requires Lawful(math) && u.SquareLength() == 1.0
    ensures Vector3D.Times(k, u).Length(math) == Abs(k)
    ensures forall w: Vector3D {:trigger u.DotProduct(w)} :: u.DotProduct(w) == 0.0 ==> Vector3D.Times(k, u).DotProduct(w) == 0.0
  {
    assert Vector3D.Times(k, u).SquareLength() == k * k * u.SquareLength();
    assert Vector3D.Times(k, u).SquareLength() == k * k;
    SqrtOfSquare(math, k);
    forall w: Vector3D | u.DotProduct(w) == 0.0
      ensures Vector3D.Times(k, u).DotProduct(w) == 0.0
    {
      assert Vector3D.Times(k, u).DotProduct(w) == k * u.DotProduct(w);
    }
  }
}
