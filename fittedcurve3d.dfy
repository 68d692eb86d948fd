/**
 * FittedCurve3D: a spatial curve through a list of points, and the
 * placeholder BezierCurve. Only the list is modelled: no curve is fitted.
 */
module FittedCurves3D {
  import opened RealMath
  import opened Primitives3D
  import opened Transforms3D
  import opened Sequences

  datatype FittedCurve3D = FittedCurve3D(Points: seq<Point3D>, Transform: Transform3D)
  {
    /** The stored points, each mapped through the frame. */
    function ControlPoints(): seq<Point3D>
    {
      Map((p: Point3D) => Transform.OfPoint(p), Points)
    }

    /** `FirstOrDefault`: the first stored point (not mapped), or the zero point for an empty list. */
    function StartPoint(): Point3D
    {
      if |Points| == 0 then Point3D.Zero() else Points[0]
    }

    /** `LastOrDefault`: the last stored point (not mapped), or the zero point for an empty list. */
    function EndPoint(): Point3D
    {
      if |Points| == 0 then Point3D.Zero() else Last(Points)
    }

    /** A new curve, in the identity frame, through the stored points moved by `transform`. */
    function CreateTransformed(transform: Transform3D): FittedCurve3D
    {
      FromPoints(Map((p: Point3D) => transform.OfPoint(p), Points))
    }
  }

  /** The constructor: the given points in the identity frame. */
  function FromPoints(points: seq<Point3D>): FittedCurve3D
  {
    FittedCurve3D(points, Identity())
  }

  /** The placeholder Bezier curve: its constructor takes a list of points and keeps nothing. */
  datatype BezierCurve = BezierCurve

  function BezierFromPoints(points: seq<Point3D>): BezierCurve
  {
    BezierCurve
  }

  /** Two Bezier curves built from any two lists of points are the same value. */
  lemma BezierKeepsNothing(points: seq<Point3D>, others: seq<Point3D>)
    ensures BezierFromPoints(points) == BezierFromPoints(others)
  {
  }

  /**
   * The start and end points are the first and last stored points, the
   * zero point when there are none, and the same point when there is one.
   */
  lemma EndsSpec(curve: FittedCurve3D)
    ensures |curve.Points| == 0 ==> curve.StartPoint() == Point3D.Zero() && curve.EndPoint() == Point3D.Zero()
    ensures |curve.Points| >= 1 ==> curve.StartPoint() == curve.Points[0] && curve.EndPoint() == curve.Points[|curve.Points| - 1]
    ensures |curve.Points| == 1 ==> curve.StartPoint() == curve.EndPoint()
  {
  }

  /**
   * The control points of a constructed curve are its points, since its
   * frame is the identity.
   */
  lemma ControlPointsSpec(points: seq<Point3D>)
    ensures FromPoints(points).ControlPoints() == points
  {
    var cs := FromPoints(points).ControlPoints();
    forall i | 0 <= i < |points|
      ensures cs[i] == points[i]
    {
      IdentityFixes(points[i], Vector3D.Zero());
    }
  }

  /**
   * CreateTransformed keeps the number and order of the points, moves each by
   * the transform, and so moves the start and end points of a non-empty
   * curve; the new curve is in the identity frame.
   */
  lemma TransformedSpec(curve: FittedCurve3D, transform: Transform3D)
    ensures var moved := curve.CreateTransformed(transform);
      && |moved.Points| == |curve.Points|
      && (forall i :: 0 <= i < |curve.Points| ==> moved.Points[i] == transform.OfPoint(curve.Points[i]))
      && moved.Transform == Identity()
      && moved.ControlPoints() == moved.Points
      && (|curve.Points| >= 1 ==> moved.StartPoint() == transform.OfPoint(curve.StartPoint()))
      && (|curve.Points| >= 1 ==> moved.EndPoint() == transform.OfPoint(curve.EndPoint()))
  {
    ControlPointsSpec(curve.CreateTransformed(transform).Points);
  }
}
