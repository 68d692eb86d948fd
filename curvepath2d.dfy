/**
 * CurvePath2D: a list of plane curves, grown in place, in which each curve
 * starts where the previous one ends (within 0.01).
 */
module CurvePaths2D {
  import opened RealMath
  import opened Results
  import opened Primitives2D
  import opened Transforms2D
  import opened Sequences
  import opened Curves2D
  import opened FittedCurves2D

  /** Every curve has end points, and each one ends within 0.01 of where the next one starts. */
  predicate Continuous(curves: seq<Curve2D>, math: MathLib)
  {
    && (forall i :: 0 <= i < |curves| ==> curves[i].Defined())
    && (forall i :: 0 <= i < |curves| - 1 ==>
          curves[i].EndPoint(math).IsAlmostEqualTo(curves[i + 1].StartPoint(math), math))
  }

  /** At least two curves, and the first starts within 0.01 of where the last ends. */
  predicate Closed(curves: seq<Curve2D>, math: MathLib)
    requires forall i :: 0 <= i < |curves| ==> curves[i].Defined()
  {
    |curves| > 1 && curves[0].StartPoint(math).IsAlmostEqualTo(Last(curves).EndPoint(math), math)
  }

  class CurvePath2D {
    var curves: seq<Curve2D>

    /** The empty path. */
    constructor ()
      ensures curves == []
    {
      curves := [];
    }

    /**
     * Adds a curve at the end: always to an empty path, and otherwise only
     * when the last curve ends within 0.01 of the new curve's start;
     * InvalidOperationException, with the path unchanged, when it does not.
     */
    method Append(curve: Curve2D, math: MathLib) returns (r: Result<()>)
      requires Continuous(curves, math) && curve.Defined()
      modifies this
      ensures Continuous(curves, math)
      ensures r.Success? <==> old(curves) == [] || Last(old(curves)).EndPoint(math).IsAlmostEqualTo(curve.StartPoint(math), math)
      ensures r.Success? ==> curves == old(curves) + [curve]
      ensures r.Failure? ==> r.error == InvalidOperation && curves == old(curves)
    {
      if |curves| > 0 {
        var last := curves[|curves| - 1];
        if last.EndPoint(math).IsAlmostEqualTo(curve.StartPoint(math), math) {
          ContinuousAppend(curves, curve, math);
          curves := curves + [curve];
          r := Success(());
        } else {
          r := Failure(InvalidOperation);
        }
      } else {
        curves := curves + [curve];
        r := Success(());
      }
    }

    /** False for fewer than two curves; otherwise whether the first starts within 0.01 of where the last ends. */
    function IsClosed(math: MathLib): (r: bool)
      reads this
      requires Continuous(curves, math)
      ensures |curves| <= 1 ==> !r
      ensures |curves| >= 2 ==> (r <==> curves[0].StartPoint(math).IsAlmostEqualTo(Last(curves).EndPoint(math), math))
      ensures r <==> Closed(curves, math)
    {
      if |curves| <= 1 then false
      else
        var first := curves[0];
        var last := curves[|curves| - 1];
        first.StartPoint(math).IsAlmostEqualTo(last.EndPoint(math), math)
    }

    /**
     * A new path of the curves transformed one by one, in order, built by
     * the sequence constructor: it fails exactly when the transformed
     * curves no longer meet.
     */
    method CreateTransform(transform: Transform2D, math: MathLib) returns (r: Result<CurvePath2D>)
      requires Continuous(curves, math)
      requires forall i :: 0 <= i < |curves| ==> curves[i].IsAffine()
      requires transform.IsAffine()
      ensures r.Success? <==> Continuous(TransformAll(curves, transform), math)
      ensures r.Success? ==> fresh(r.value) && r.value.curves == TransformAll(curves, transform)
      ensures r.Failure? ==> r.error == InvalidOperation
    {
      var newCurves: seq<Curve2D> := [];
      for i := 0 to |curves|
        invariant newCurves == TransformAll(curves[..i], transform)
      {
        MapSnoc((c: Curve2D) => c.CreateTransformed(transform), curves, i);
        newCurves := newCurves + [curves[i].CreateTransformed(transform)];
      }
      assert curves[..|curves|] == curves;
      forall i | 0 <= i < |newCurves|
        ensures newCurves[i].Defined()
      {
        TransformedEnds(curves[i], transform, math);
      }
      r := FromCurves(newCurves, math);
    }
  }

  /**
   * The sequence constructor: appends the curves in order and throws
   * InvalidOperationException at the first one that does not meet the
   * previous one, so it succeeds exactly when the whole list is continuous.
   */
  method FromCurves(curve2Ds: seq<Curve2D>, math: MathLib) returns (r: Result<CurvePath2D>)
    requires forall i :: 0 <= i < |curve2Ds| ==> curve2Ds[i].Defined()
    ensures r.Success? <==> Continuous(curve2Ds, math)
    ensures r.Success? ==> fresh(r.value) && r.value.curves == curve2Ds
    ensures r.Failure? ==> r.error == InvalidOperation
  {
    var path := new CurvePath2D();
    for i := 0 to |curve2Ds|
      invariant fresh(path)
      invariant path.curves == curve2Ds[..i]
      invariant Continuous(curve2Ds[..i], math)
    {
      var appended := path.Append(curve2Ds[i], math);
      if appended.Failure? {
        assert !curve2Ds[i - 1].EndPoint(math).IsAlmostEqualTo(curve2Ds[i].StartPoint(math), math);
        return Failure(appended.error);
      }
      assert curve2Ds[..i + 1] == curve2Ds[..i] + [curve2Ds[i]];
    }
    assert curve2Ds[..|curve2Ds|] == curve2Ds;
    return Success(path);
  }

  /** Appending a curve that starts where the last one ends keeps a list continuous. */
  lemma ContinuousAppend(curves: seq<Curve2D>, curve: Curve2D, math: MathLib)
    requires Continuous(curves, math) && curve.Defined() && |curves| > 0
    requires Last(curves).EndPoint(math).IsAlmostEqualTo(curve.StartPoint(math), math)
    ensures Continuous(curves + [curve], math)
  {
  }

  // ---------------------------------------------------------------- translations

  /** Translating two points by the same vector keeps their distance. */
  lemma TranslationKeepsDistance(p: Point2D, q: Point2D, vector: Vector2D, math: MathLib)
    ensures CreateTranslation(vector).OfPoint(p).DistanceTo(CreateTranslation(vector).OfPoint(q), math) == p.DistanceTo(q, math)
  {
    TranslationMoves(vector, p, Vector2D.Zero());
    TranslationMoves(vector, q, Vector2D.Zero());
    assert p.Add(vector).SquareDistanceTo(q.Add(vector)) == p.SquareDistanceTo(q);
  }

  /** Two points are within the tolerance after a translation exactly when they were before. */
  lemma TranslatedNear(p: Point2D, q: Point2D, vector: Vector2D, math: MathLib)
    ensures CreateTranslation(vector).OfPoint(p).IsAlmostEqualTo(CreateTranslation(vector).OfPoint(q), math)
        <==> p.IsAlmostEqualTo(q, math)
  {
    TranslationKeepsDistance(p, q, vector, math);
  }

  lemma TranslationIsAffine(vector: Vector2D)
    ensures CreateTranslation(vector).IsAffine()
  {
  }

  /**
   * Translating every curve of a path keeps it continuous and keeps it
   * closed or open, so CreateTransform with a translation never fails on a
   * path of affine curves.
   */
  lemma TranslatedPath(curves: seq<Curve2D>, vector: Vector2D, math: MathLib)
    requires Continuous(curves, math)
    requires forall i :: 0 <= i < |curves| ==> curves[i].IsAffine()
    ensures Continuous(TransformAll(curves, CreateTranslation(vector)), math)
    ensures Closed(TransformAll(curves, CreateTranslation(vector)), math) <==> Closed(curves, math)
  {
    var t := CreateTranslation(vector);
    var moved := TransformAll(curves, t);
    TranslationIsAffine(vector);
    forall i | 0 <= i < |curves|
      ensures moved[i].Defined()
      ensures moved[i].StartPoint(math) == t.OfPoint(curves[i].StartPoint(math))
      ensures moved[i].EndPoint(math) == t.OfPoint(curves[i].EndPoint(math))
    {
      TransformedEnds(curves[i], t, math);
    }
    forall i | 0 <= i < |curves| - 1
      ensures moved[i].EndPoint(math).IsAlmostEqualTo(moved[i + 1].StartPoint(math), math)
    {
      TranslatedNear(curves[i].EndPoint(math), curves[i + 1].StartPoint(math), vector, math);
    }
    if |curves| > 1 {
      TranslatedNear(curves[0].StartPoint(math), Last(curves).EndPoint(math), vector, math);
    }
  }

  // ---------------------------------------------------------------- fitted curves, as written

  /**
   * A fitted curve through (0, 0), (1, 0), (2, 0) reports (1, 0) as its end
   * point, so a path holding it refuses a curve that starts at (2, 0), the
   * curve's true end: the pair is not continuous, and so `Append` and the
   * sequence constructor fail with InvalidOperationException, although the
   * true end point meets the next start.
   */
  lemma FittedPathRefusesContinuation(fitted: Curve2D, next: Curve2D, math: MathLib)
    requires Lawful(math)
    requires fitted == FittedCurve(FromPoints([Point2D(0.0, 0.0), Point2D(1.0, 0.0), Point2D(2.0, 0.0)]))
    requires next.Defined() && next.StartPoint(math) == Point2D(2.0, 0.0)
    ensures fitted.Defined()
    ensures !Continuous([fitted, next], math)
    ensures fitted.CorrectedEndPoint(math).IsAlmostEqualTo(next.StartPoint(math), math)
  {
    FittedEnds(fitted);
    SqrtOfSquare(math, 1.0);
    SqrtOfSquare(math, 0.0);
    assert Point2D(1.0, 0.0).SquareDistanceTo(Point2D(2.0, 0.0)) == 1.0 * 1.0;
    assert Point2D(2.0, 0.0).SquareDistanceTo(Point2D(2.0, 0.0)) == 0.0 * 0.0;
    assert fitted.EndPoint(math) == Point2D(1.0, 0.0);
    assert Point2D(1.0, 0.0).DistanceTo(Point2D(2.0, 0.0), math) == 1.0;
    assert !fitted.EndPoint(math).IsAlmostEqualTo(next.StartPoint(math), math);
    assert [fitted, next][0] == fitted && [fitted, next][1] == next;
  }

  lemma FittedEnds(fitted: Curve2D)
    requires fitted == FittedCurve(FromPoints([Point2D(0.0, 0.0), Point2D(1.0, 0.0), Point2D(2.0, 0.0)]))
    ensures fitted.Defined()
    ensures fitted.fitted.EndPointAsWritten() == Point2D(1.0, 0.0)
    ensures fitted.fitted.EndPoint() == Point2D(2.0, 0.0)
  {
    IdentityFixes(Point2D(1.0, 0.0), Vector2D.Zero());
    IdentityFixes(Point2D(2.0, 0.0), Vector2D.Zero());
  }
}
