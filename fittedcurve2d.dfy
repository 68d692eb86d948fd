/**
 * FittedCurve2D: a curve through a list of control points, stored in its
 * own frame. Only the list is modelled: no curve is fitted through it.
 */
module FittedCurves2D {
  import opened RealMath
  import opened Results
  import opened Primitives2D
  import opened Transforms2D
  import opened Sequences

  datatype FittedCurve2D = FittedCurve2D(Points: seq<Point2D>, Transform: Transform2D)
  {
    /** The stored points, each mapped through the frame. */
    function ControlPoints(): seq<Point2D>
    {
      Map((p: Point2D) => Transform.OfPoint(p), Points)
    }

    /** The first stored point in the frame; the source indexes past the end of an empty list. */
    function StartPoint(): Point2D
      requires |Points| >= 1
    {
      Transform.OfPoint(Points[0])
    }

    /**
     * The end point as the source writes it: the stored point at index 1,
     * which is the last one only when there are exactly two.
     */
    function EndPointAsWritten(): Point2D
      requires |Points| >= 2
    {
      Transform.OfPoint(Points[1])
    }

    /** The end point: the last stored point in the frame. */
    function EndPoint(): Point2D
      requires |Points| >= 1
    {
      Transform.OfPoint(Last(Points))
    }

    /** The same points in the frame `transform * this frame`. */
    function CreateTransformed(transform: Transform2D): FittedCurve2D
    {
      FittedCurve2D(Points, transform.Multiply(Transform))
    }

    /** The stored points in reverse order, in the same frame. */
    function CreateReversed(): FittedCurve2D
    {
      FittedCurve2D(Reverse(Points), Transform)
    }

    /** Not implemented: the source always throws NotImplementedException. */
    function CreateOffset(offsetDist: real): (r: Result<FittedCurve2D>)
      ensures r.Failure? && r.error == NotImplemented
    {
      Failure(NotImplemented)
    }
  }

  /** The constructor: the given points in the identity frame. */
  function FromPoints(points: seq<Point2D>): FittedCurve2D
  {
    FittedCurve2D(points, Identity())
  }

  /**
   * The control points are the stored points mapped through the frame, in
   * order; the start point is the first of them and the end point the last.
   */
  lemma ControlPointsSpec(curve: FittedCurve2D)
    ensures |curve.ControlPoints()| == |curve.Points|
    ensures forall i :: 0 <= i < |curve.Points| ==> curve.ControlPoints()[i] == curve.Transform.OfPoint(curve.Points[i])
    ensures |curve.Points| >= 1 ==> curve.StartPoint() == curve.ControlPoints()[0]
    ensures |curve.Points| >= 1 ==> curve.EndPoint() == Last(curve.ControlPoints())
  {
  }

  /** A freshly constructed curve's control points are the given points. */
  lemma FromPointsSpec(points: seq<Point2D>)
    ensures FromPoints(points).ControlPoints() == points
  {
    var cs := FromPoints(points).ControlPoints();
    forall i | 0 <= i < |points|
      ensures cs[i] == points[i]
    {
      IdentityFixes(points[i], Vector2D.Zero());
    }
  }

  /**
   * For an affine frame, the transformed curve keeps the stored points and
   * its control points (so its start and end points) are the old ones moved
   * by the transform.
   */
  lemma TransformedSpec(curve: FittedCurve2D, transform: Transform2D)
    requires curve.Transform.IsAffine()
    ensures curve.CreateTransformed(transform).Points == curve.Points
    ensures curve.CreateTransformed(transform).ControlPoints() == Map((p: Point2D) => transform.OfPoint(p), curve.ControlPoints())
    ensures |curve.Points| >= 1 ==> curve.CreateTransformed(transform).StartPoint() == transform.OfPoint(curve.StartPoint())
    ensures |curve.Points| >= 1 ==> curve.CreateTransformed(transform).EndPoint() == transform.OfPoint(curve.EndPoint())
    ensures |curve.Points| >= 2 ==> curve.CreateTransformed(transform).EndPointAsWritten() == transform.OfPoint(curve.EndPointAsWritten())
  {
    var moved := curve.CreateTransformed(transform);
    var l, r := moved.ControlPoints(), Map((p: Point2D) => transform.OfPoint(p), curve.ControlPoints());
    forall i | 0 <= i < |curve.Points|
      ensures l[i] == r[i]
    {
      MultiplyComposes(transform, curve.Transform, curve.Points[i]);
    }
  }

  /**
   * The reversed curve's control points are the control points reversed, so
   * it starts where the curve ends and ends where it starts; reversing twice
   * gives the curve back.
   */
  lemma ReversedSpec(curve: FittedCurve2D)
    ensures curve.CreateReversed().ControlPoints() == Reverse(curve.ControlPoints())
    ensures |curve.Points| >= 1 ==> curve.CreateReversed().StartPoint() == curve.EndPoint()
    ensures |curve.Points| >= 1 ==> curve.CreateReversed().EndPoint() == curve.StartPoint()
    ensures curve.CreateReversed().CreateReversed() == curve
  {
    MapReverse((p: Point2D) => curve.Transform.OfPoint(p), curve.Points);
    ReverseInvolution(curve.Points);
  }

  /**
   * As written, the end point of a curve through three points is its middle
   * point, so the reversed curve does not start where the curve ends: for
   * (0, 0), (1, 0), (2, 0) the end point is (1, 0) and the reversed curve
   * starts at (2, 0).
   */
  lemma EndPointAsWrittenIsNotLast(curve: FittedCurve2D, p0: Point2D, p1: Point2D, p2: Point2D)
    requires p0 == Point2D(0.0, 0.0) && p1 == Point2D(1.0, 0.0) && p2 == Point2D(2.0, 0.0)
    requires curve == FromPoints([p0, p1, p2])
    ensures curve.EndPointAsWritten() == p1
    ensures curve.CreateReversed().StartPoint() == p2
    ensures curve.CreateReversed().StartPoint() != curve.EndPointAsWritten()
  {
    IdentityFixes(p1, Vector2D.Zero());
    IdentityFixes(p2, Vector2D.Zero());
    assert Reverse(curve.Points)[0] == p2;
  }
}
