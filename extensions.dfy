/**
 * The extension methods on lists of spatial segments: the continuity test
 * and the offset of a whole chain of segments, with mitred corners.
 */
module Extensions {
  import opened RealMath
  import opened Results
  import opened Primitives3D
  import opened Transforms3D
  import opened Sequences
  import opened Segments3D

  /** Each segment ends strictly within 0.01 of where the next one starts. */
  predicate Continuous(segments: seq<Segment3D>, math: MathLib)
  {
    forall i :: 0 <= i < |segments| - 1 ==> segments[i].EndPoint.IsAlmostEqualTo(segments[i + 1].StartPoint, math)
  }

  /**
   * IsContinuity: walks the consecutive pairs with a result flag and stops
   * at the first pair that does not meet.
   */
  method IsContinuity(segments: seq<Segment3D>, math: MathLib) returns (result: bool)
    ensures result <==> Continuous(segments, math)
  {
    result := true;
    var i := 0;
    while i < |segments| - 1
      invariant 0 <= i && (i == 0 || i < |segments|)
      invariant forall k :: 0 <= k < i ==> segments[k].EndPoint.IsAlmostEqualTo(segments[k + 1].StartPoint, math)
    {
      var current := segments[i];
      var next := segments[i + 1];
      if !current.EndPoint.IsAlmostEqualTo(next.StartPoint, math) {
        result := false;
        break;
      }
      i := i + 1;
    }
  }

  // ---------------------------------------------------------------- offsetting a chain

  /** The offset direction of one segment is defined: it has a direction not parallel to the normal. */
  predicate SideDefined(segment: Segment3D, normal: Vector3D, math: MathLib)
  {
    segment.Span().Length(math) != 0.0 && segment.Direction(math).CrossProduct(normal).Length(math) != 0.0
  }

  /** The unit vector Direction x normal along which a segment is offset. */
  function Side(segment: Segment3D, normal: Vector3D, math: MathLib): Vector3D
    requires SideDefined(segment, normal, math)
  {
    segment.Direction(math).CrossProduct(normal).Normalize(math)
  }

  /**
   * Every division of the corner between two consecutive segments is by a
   * non-zero number: the directions exist and are not equal, the offset
   * direction exists, and the cosine of half the turning angle is not zero.
   */
  predicate CornerDefined(current: Segment3D, next: Segment3D, normal: Vector3D, math: MathLib)
  {
    && SideDefined(current, normal, math)
    && next.Span().Length(math) != 0.0
    && current.Direction(math).Length(math) != 0.0 && next.Direction(math).Length(math) != 0.0
    && next.Direction(math).Plus(current.Direction(math).Negate()).Length(math) != 0.0
    && math.Cos(0.5 * current.Direction(math).AngleTo(next.Direction(math), math)) != 0.0
  }

  /**
   * The mitred corner after `current`: its end point moved along the unit
   * bisector of the turn by offset / cos(half the turning angle), towards
   * the offset side.
   */
  function Corner(current: Segment3D, next: Segment3D, offset: real, normal: Vector3D, math: MathLib): Point3D
    requires CornerDefined(current, next, normal, math)
  {
    var dir := Side(current, normal, math);
    var mdir := next.Direction(math).Plus(current.Direction(math).Negate()).Normalize(math);
    var angle := 0.5 * current.Direction(math).AngleTo(next.Direction(math), math);
    var length := offset / math.Cos(angle);
    if mdir.DotProduct(dir) > 0.0 then current.EndPoint.Add(Vector3D.Times(length, mdir))
    else current.EndPoint.Subtract(Vector3D.Times(length, mdir))
  }

  /** Every corner of the chain and the side of its last segment are defined. */
  predicate OffsetDefined(segments: seq<Segment3D>, normal: Vector3D, math: MathLib)
  {
    && (forall i :: 0 <= i < |segments| ==> SideDefined(segments[i], normal, math))
    && (forall i :: 0 <= i < |segments| - 1 ==> CornerDefined(segments[i], segments[i + 1], normal, math))
  }

  /** The start of the offset chain: the first start point moved by the offset along its side. */
  function FirstStart(segments: seq<Segment3D>, offset: real, normal: Vector3D, math: MathLib): Point3D
    requires |segments| >= 1 && OffsetDefined(segments, normal, math)
  {
    segments[0].StartPoint.Add(Vector3D.Times(offset, Side(segments[0], normal, math)))
  }

  /** The end of the offset chain: the last end point moved by the offset along its side. */
  function LastEnd(segments: seq<Segment3D>, offset: real, normal: Vector3D, math: MathLib): Point3D
    requires |segments| >= 1 && OffsetDefined(segments, normal, math)
  {
    Last(segments).EndPoint.Add(Vector3D.Times(offset, Side(Last(segments), normal, math)))
  }

  /**
   * The offset chain of `segments` ending at its last corner: `result` has
   * one segment per corner, the first starting at the offset first start
   * point, each ending at its corner and each next one starting there.
   */
  predicate IsCornerChain(result: seq<Segment3D>, segments: seq<Segment3D>, offset: real, normal: Vector3D, math: MathLib)
    requires OffsetDefined(segments, normal, math)
    requires |result| <= |segments| - 1
  {
    && (|result| >= 1 ==> result[0].StartPoint == FirstStart(segments, offset, normal, math))
    && (forall k :: 0 <= k < |result| ==> result[k].EndPoint == Corner(segments[k], segments[k + 1], offset, normal, math))
    && (forall k :: 0 <= k < |result| - 1 ==> result[k + 1].StartPoint == result[k].EndPoint)
  }

  /**
   * The loop of CreateOffset: one segment per pair of consecutive input
   * segments, from the previous corner (or the offset first start point)
   * to the corner after the current one; `midPoint` is the last corner, or
   * null when there was no pair.
   */
  method OffsetCorners(segments: seq<Segment3D>, offset: real, normal: Vector3D, math: MathLib)
    returns (result: seq<Segment3D>, midPoint: Option<Point3D>)
    requires OffsetDefined(segments, normal, math)
    ensures |segments| <= 1 ==> result == [] && midPoint == None
    ensures |segments| >= 2 ==> |result| == |segments| - 1 && midPoint == Some(Last(result).EndPoint)
    ensures |segments| >= 2 ==> IsCornerChain(result, segments, offset, normal, math)
  {
    result := [];
    midPoint := None;
    var i := 0;
    while i < |segments| - 1
      invariant 0 <= i && (i == 0 || i < |segments|)
      invariant |result| == i
      invariant i == 0 ==> midPoint == None
      invariant i > 0 ==> midPoint == Some(result[i - 1].EndPoint)
      invariant i > 0 ==> result[0].StartPoint == FirstStart(segments, offset, normal, math)
      invariant forall k :: 0 <= k < i ==> result[k].EndPoint == Corner(segments[k], segments[k + 1], offset, normal, math)
      invariant forall k :: 0 <= k < i - 1 ==> result[k + 1].StartPoint == result[k].EndPoint
    {
      var current := segments[i];
      var next := segments[i + 1];
      var dir := current.Direction(math).CrossProduct(normal).Normalize(math);
      assert dir == Side(current, normal, math);
      var startPoint := if i == 0 then current.StartPoint.Add(Vector3D.Times(offset, dir)) else midPoint.value;
      var endPoint;
      var mdir := next.Direction(math).Plus(current.Direction(math).Negate()).Normalize(math);
      var angle := 0.5 * current.Direction(math).AngleTo(next.Direction(math), math);
      var length := offset / math.Cos(angle);
      if mdir.DotProduct(dir) > 0.0 {
        endPoint := current.EndPoint.Add(Vector3D.Times(length, mdir));
      } else {
        endPoint := current.EndPoint.Subtract(Vector3D.Times(length, mdir));
      }
      assert endPoint == Corner(current, next, offset, normal, math);
      result := result + [Segment3D(startPoint, endPoint)];
      midPoint := Some(endPoint);
      i := i + 1;
    }
  }

  /**
   * CreateOffset as the source writes it: ArgumentException for a chain that
   * is not continuous; otherwise the corners, then a last segment from the
   * last corner to the offset last end point. With no pair of segments
   * there is no last corner: `Last` of an empty list, and the null corner
   * of a one-segment list, raise InvalidOperationException.
   */
  method CreateOffset(segments: seq<Segment3D>, offset: real, normal: Vector3D, math: MathLib)
    returns (r: Result<seq<Segment3D>>)
    requires Continuous(segments, math) ==> OffsetDefined(segments, normal, math)
    ensures !Continuous(segments, math) ==> r == Failure(Argument)
    ensures Continuous(segments, math) && |segments| <= 1 ==> r == Failure(InvalidOperation)
    ensures Continuous(segments, math) && |segments| >= 2 ==> r.Success? && IsOffsetChain(r.value, segments, offset, normal, math)
  {
    var continuous := IsContinuity(segments, math);
    if !continuous {
      return Failure(Argument);
    }
    var result, midPoint := OffsetCorners(segments, offset, normal, math);
    if |segments| == 0 {
      return Failure(InvalidOperation);
    }
    var last := segments[|segments| - 1];
    var ldir := last.Direction(math).CrossProduct(normal).Normalize(math);
    if midPoint.None? {
      return Failure(InvalidOperation);
    }
    result := result + [Segment3D(midPoint.value, last.EndPoint.Add(Vector3D.Times(offset, ldir)))];
    return Success(result);
  }

  /**
   * The offset chain: one segment per input segment, starting at the offset
   * first start point, ending at the offset last end point, each ending at
   * the corner after its input segment and each starting where the previous
   * one ends.
   */
  predicate IsOffsetChain(result: seq<Segment3D>, segments: seq<Segment3D>, offset: real, normal: Vector3D, math: MathLib)
    requires |segments| >= 1 && OffsetDefined(segments, normal, math)
  {
    && |result| == |segments|
    && result[0].StartPoint == FirstStart(segments, offset, normal, math)
    && Last(result).EndPoint == LastEnd(segments, offset, normal, math)
    && (forall k :: 0 <= k < |result| - 1 ==> result[k].EndPoint == Corner(segments[k], segments[k + 1], offset, normal, math))
    && (forall k :: 0 <= k < |result| - 1 ==> result[k + 1].StartPoint == result[k].EndPoint)
  }

  /**
   * CreateOffset with the start of the last segment falling back to the
   * offset first start point when there was no corner, so that a single
   * segment is offset like Segment3D.CreateOffset instead of raising.
   */
  method CreateOffsetCorrected(segments: seq<Segment3D>, offset: real, normal: Vector3D, math: MathLib)
    returns (r: Result<seq<Segment3D>>)
    requires Continuous(segments, math) ==> OffsetDefined(segments, normal, math)
    ensures !Continuous(segments, math) ==> r == Failure(Argument)
    ensures |segments| == 0 ==> r.Failure?
    ensures Continuous(segments, math) && |segments| >= 1 ==> r.Success? && IsOffsetChain(r.value, segments, offset, normal, math)
  {
    var continuous := IsContinuity(segments, math);
    if !continuous {
      return Failure(Argument);
    }
    var result, midPoint := OffsetCorners(segments, offset, normal, math);
    if |segments| == 0 {
      return Failure(InvalidOperation);
    }
    var last := segments[|segments| - 1];
    var ldir := last.Direction(math).CrossProduct(normal).Normalize(math);
    var startPoint := if midPoint.Some? then midPoint.value else last.StartPoint.Add(Vector3D.Times(offset, ldir));
    result := result + [Segment3D(startPoint, last.EndPoint.Add(Vector3D.Times(offset, ldir)))];
    return Success(result);
  }

  // ---------------------------------------------------------------- properties

  /** Lists of zero or one segment are continuous. */
  lemma ShortListsContinuous(segments: seq<Segment3D>, math: MathLib)
    requires |segments| <= 1
    ensures Continuous(segments, math)
  {
  }

  /**
   * A list is continuous exactly when its two halves are and, when both are
   * non-empty, the first half ends where the second starts.
   */
  lemma {:induction false} ContinuousConcat(a: seq<Segment3D>, b: seq<Segment3D>, math: MathLib)
    ensures Continuous(a + b, math) <==>
      && Continuous(a, math) && Continuous(b, math)
      && (|a| >= 1 && |b| >= 1 ==> Last(a).EndPoint.IsAlmostEqualTo(b[0].StartPoint, math))
  {
    var s := a + b;
    if Continuous(s, math) {
      forall i | 0 <= i < |a| - 1
        ensures a[i].EndPoint.IsAlmostEqualTo(a[i + 1].StartPoint, math)
      {
        assert s[i] == a[i] && s[i + 1] == a[i + 1];
      }
      forall i | 0 <= i < |b| - 1
        ensures b[i].EndPoint.IsAlmostEqualTo(b[i + 1].StartPoint, math)
      {
        assert s[|a| + i] == b[i] && s[|a| + i + 1] == b[i + 1];
      }
      if |a| >= 1 && |b| >= 1 {
        assert s[|a| - 1] == Last(a) && s[|a|] == b[0];
      }
    }
    if && Continuous(a, math) && Continuous(b, math)
       && (|a| >= 1 && |b| >= 1 ==> Last(a).EndPoint.IsAlmostEqualTo(b[0].StartPoint, math)) {
      forall i | 0 <= i < |s| - 1
        ensures s[i].EndPoint.IsAlmostEqualTo(s[i + 1].StartPoint, math)
      {
        if i + 1 < |a| {
          assert s[i] == a[i] && s[i + 1] == a[i + 1];
        } else if i + 1 == |a| {
          assert s[i] == Last(a) && s[i + 1] == b[0];
        } else {
          assert s[i] == b[i - |a|] && s[i + 1] == b[i - |a| + 1];
        }
      }
    }
  }

  /**
   * The one-segment offset of the corrected method is Segment3D.CreateOffset
   * of that segment.
   */
  lemma SingleOffset(segment: Segment3D, result: seq<Segment3D>, offset: real, normal: Vector3D, math: MathLib)
    requires SideDefined(segment, normal, math)
    requires IsOffsetChain(result, [segment], offset, normal, math)
    ensures result == [segment.CreateOffset(offset, normal, math)]
  {
    var v := Vector3D.Times(offset, Side(segment, normal, math));
    TranslationMoves(v, segment.StartPoint, Vector3D.Zero());
    TranslationMoves(v, segment.EndPoint, Vector3D.Zero());
  }

  /**
   * The offset chain starts and ends at the offset distance from the input
   * chain's start and end, stepped at right angles to the first and last
   * segments.
   */
  lemma OffsetEnds(segments: seq<Segment3D>, offset: real, normal: Vector3D, math: MathLib)
    requires Lawful(math) && |segments| >= 1 && OffsetDefined(segments, normal, math)
    ensures Vector3D.Between(segments[0].StartPoint, FirstStart(segments, offset, normal, math)).DotProduct(segments[0].Span()) == 0.0
    ensures segments[0].StartPoint.DistanceTo(FirstStart(segments, offset, normal, math), math) == Abs(offset)
    ensures Vector3D.Between(Last(segments).EndPoint, LastEnd(segments, offset, normal, math)).DotProduct(Last(segments).Span()) == 0.0
    ensures Last(segments).EndPoint.DistanceTo(LastEnd(segments, offset, normal, math), math) == Abs(offset)
  {
    assert SideDefined(Last(segments), normal, math);
    SideStep(segments[0], segments[0].StartPoint, offset, normal, math);
    SideStep(Last(segments), Last(segments).EndPoint, offset, normal, math);
  }

  /** A step by `offset` along a segment's side is at right angles to it and |offset| long. */
  lemma SideStep(segment: Segment3D, p: Point3D, offset: real, normal: Vector3D, math: MathLib)
    requires Lawful(math) && SideDefined(segment, normal, math)
    ensures Vector3D.Between(p, p.Add(Vector3D.Times(offset, Side(segment, normal, math)))).DotProduct(segment.Span()) == 0.0
    ensures p.DistanceTo(p.Add(Vector3D.Times(offset, Side(segment, normal, math))), math) == Abs(offset)
  {
    var v := Vector3D.Times(offset, Side(segment, normal, math));
    assert v == segment.OffsetVector(offset, normal, math);
    OffsetVectorSpec(segment, offset, normal, math);
    assert Vector3D.Between(p, p.Add(v)) == v;
    assert p.SquareDistanceTo(p.Add(v)) == v.SquareLength();
  }

  /**
   * Each segment of an offset chain starts exactly where the previous one
   * ends, so the chain passes IsContinuity itself.
   */
  lemma OffsetChainContinuous(result: seq<Segment3D>, segments: seq<Segment3D>, offset: real, normal: Vector3D, math: MathLib)
    requires Lawful(math)
    requires |segments| >= 1 && OffsetDefined(segments, normal, math)
    requires IsOffsetChain(result, segments, offset, normal, math)
    ensures Continuous(result, math)
  {
    forall i | 0 <= i < |result| - 1
      ensures result[i].EndPoint.IsAlmostEqualTo(result[i + 1].StartPoint, math)
    {
      DistanceProperties(result[i].EndPoint, result[i + 1].StartPoint, math);
    }
  }
}
