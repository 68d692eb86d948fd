/**
 * BoundedCurve2D: the plane curves with a start and an end point that a
 * curve path chains together, one case per kind of curve the library
 * derives from it.
 */
module Curves2D {
  import opened RealMath
  import opened Primitives2D
  import opened Transforms2D
  import opened Sequences
  import opened Arcs2D
  import opened Segments2D
  import opened FittedCurves2D

  datatype Curve2D =
    | ArcCurve(arc: Arc2D)
    | SegmentCurve(segment: Segment2D)
    | FittedCurve(fitted: FittedCurve2D)
  {
    /**
     * The end points exist: a fitted curve reads its stored points at
     * indices 0 and 1, so it needs at least two.
     */
    predicate Defined()
    {
      FittedCurve? ==> |fitted.Points| >= 2
    }

    /** The curve's frame has homogeneous row (0, 0, 1), as every constructor makes it. */
    predicate IsAffine()
    {
      match this
      case ArcCurve(a) => a.Transform.IsAffine()
      case SegmentCurve(s) => s.Transform.IsAffine()
      case FittedCurve(f) => f.Transform.IsAffine()
    }

    function StartPoint(math: MathLib): Point2D
      requires Defined()
    {
      match this
      case ArcCurve(a) => a.StartPoint(math)
      case SegmentCurve(s) => s.StartPoint()
      case FittedCurve(f) => f.StartPoint()
    }

    /** The end point as each kind of curve reports it; a fitted curve's is its second point. */
    function EndPoint(math: MathLib): Point2D
      requires Defined()
    {
      match this
      case ArcCurve(a) => a.EndPoint(math)
      case SegmentCurve(s) => s.EndPoint()
      case FittedCurve(f) => f.EndPointAsWritten()
    }

    /** The end point with a fitted curve ending at its last point. */
    function CorrectedEndPoint(math: MathLib): Point2D
      requires Defined()
    {
      match this
      case ArcCurve(a) => a.EndPoint(math)
      case SegmentCurve(s) => s.EndPoint()
      case FittedCurve(f) => f.EndPoint()
    }

    function CreateTransformed(transform: Transform2D): Curve2D
    {
      match this
      case ArcCurve(a) => ArcCurve(a.CreateTransformed(transform))
      case SegmentCurve(s) => SegmentCurve(s.CreateTransformed(transform))
      case FittedCurve(f) => FittedCurve(f.CreateTransformed(transform))
    }
  }

  /** Every curve of a list transformed, in order. */
  function TransformAll(curves: seq<Curve2D>, transform: Transform2D): seq<Curve2D>
  {
    Map((c: Curve2D) => c.CreateTransformed(transform), curves)
  }

  /**
   * The reported end point is the true one except on a fitted curve through
   * more than two points, where it is the second point, not the last.
   */
  lemma EndPointsAgree(curve: Curve2D, math: MathLib)
    requires curve.Defined()
    ensures !curve.FittedCurve? || |curve.fitted.Points| == 2 ==> curve.EndPoint(math) == curve.CorrectedEndPoint(math)
    ensures curve.FittedCurve? ==> curve.EndPoint(math) == curve.fitted.ControlPoints()[1]
    ensures curve.FittedCurve? ==> curve.CorrectedEndPoint(math) == Last(curve.fitted.ControlPoints())
  {
    if curve.FittedCurve? {
      ControlPointsSpec(curve.fitted);
    }
  }

  /**
   * For affine frames, a transformed curve is still defined and affine, and
   * its start and end points are the old ones moved by the transform.
   */
  lemma TransformedEnds(curve: Curve2D, transform: Transform2D, math: MathLib)
    requires curve.Defined() && curve.IsAffine() && transform.IsAffine()
    ensures curve.CreateTransformed(transform).Defined()
    ensures curve.CreateTransformed(transform).IsAffine()
    ensures curve.CreateTransformed(transform).StartPoint(math) == transform.OfPoint(curve.StartPoint(math))
    ensures curve.CreateTransformed(transform).EndPoint(math) == transform.OfPoint(curve.EndPoint(math))
    ensures curve.CreateTransformed(transform).CorrectedEndPoint(math) == transform.OfPoint(curve.CorrectedEndPoint(math))
  {
    match curve
    case ArcCurve(a) =>
      Arcs2D.TransformedSpec(a, transform, 0.0, math);
      Arcs2D.TransformedSpec(a, transform, 1.0, math);
    case SegmentCurve(s) =>
      Segments2D.TransformedSpec(s, transform, 0.0, math);
      MultiplyAffine(transform, s.Transform);
    case FittedCurve(f) =>
      FittedCurves2D.TransformedSpec(f, transform);
      MultiplyAffine(transform, f.Transform);
  }
}
