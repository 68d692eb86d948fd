/** Vector2D and Point2D: the two plane value types every 2D entity is built from. */
module Primitives2D {
  import opened RealMath
  import opened Matrices

  /** A free vector of the plane. */
  datatype Vector2D = Vector2D(X: real, Y: real)
  {
    /** The vector from `pA` to `pB` (the constructor taking two points). */
    static function Between(pA: Point2D, pB: Point2D): Vector2D
    {
      Vector2D(pB.X - pA.X, pB.Y - pA.Y)
    }

    static function BasisX(): Vector2D { Vector2D(1.0, 0.0) }
    static function BasisY(): Vector2D { Vector2D(0.0, 1.0) }
    static function Zero(): Vector2D { Vector2D(0.0, 0.0) }

    /** The homogeneous column (X, Y, 1): the source gives a vector the same last entry as a point. */
    function Matrix(): (m: Mat)
      ensures m.Valid() && m.rows == 3 && m.cols == 1
    {
      Mat(3, 1, [[X], [Y], [1.0]])
    }

    function Negate(): Vector2D { Vector2D(-X, -Y) }

    /** The vector turned a quarter turn counter-clockwise. */
    function Vertical(): Vector2D { Vector2D(-Y, X) }

    function SquareLength(): real { X * X + Y * Y }

    function Length(math: MathLib): real { math.Sqrt(SquareLength()) }

    /** Each component divided by the length; the source divides by zero for a zero vector. */
    function Normalize(math: MathLib): Vector2D
      requires Length(math) != 0.0
    {
      Vector2D(X / Length(math), Y / Length(math))
    }

    function DotProduct(other: Vector2D): real { X * other.X + Y * other.Y }

    /** z component of the cross product. */
    function Cross(other: Vector2D): real { X * other.Y - Y * other.X }

    /** The cosine of the angle between the two vectors, by the law of cosines. */
    function Cosine(other: Vector2D, math: MathLib): real
      requires other.Length(math) != 0.0 && Length(math) != 0.0
    {
      DotProduct(other) / (other.Length(math) * Length(math))
    }

    /** The angle in [0, pi] by the law of cosines, clamped at the ends. */
    function AngleTo(other: Vector2D, math: MathLib): real
      requires other.Length(math) != 0.0 && Length(math) != 0.0
    {
      var temp := Cosine(other, math);
      if temp >= 1.0 then 0.0
      else if temp <= -1.0 then math.PI
      else math.Acos(temp)
    }

    /** Positive dot product and zero cross product. */
    predicate IsEqualTo(other: Vector2D)
    {
      DotProduct(other) > 0.0 && X * other.Y - Y * other.X == 0.0
    }

    /** `other` lies within the half turn counter-clockwise of this vector. */
    predicate IsCounterClockwise(other: Vector2D)
    {
      X * other.Y >= Y * other.X
    }

    function Plus(other: Vector2D): Vector2D { Vector2D(X + other.X, Y + other.Y) }

    function Minus(other: Vector2D): Vector2D { Vector2D(X - other.X, Y - other.Y) }

    /** `vector * value`. */
    function Scaled(value: real): Vector2D { Vector2D(value * X, value * Y) }

    /** `value * vector`. */
    static function Times(value: real, vector: Vector2D): Vector2D
    {
      Vector2D(value * vector.X, value * vector.Y)
    }
  }

  /** A point of the plane. */
  datatype Point2D = Point2D(X: real, Y: real)
  {
    static function Zero(): Point2D { Point2D(0.0, 0.0) }

    /** The position vector of the point. */
    function Vector(): Vector2D { Vector2D(X, Y) }

    /** The homogeneous column (X, Y, 1). */
    function Matrix(): (m: Mat)
      ensures m.Valid() && m.rows == 3 && m.cols == 1
    {
      Mat(3, 1, [[X], [Y], [1.0]])
    }

    function SquareDistanceTo(point: Point2D): real
    {
      (point.Y - Y) * (point.Y - Y) + (point.X - X) * (point.X - X)
    }

    function DistanceTo(point: Point2D, math: MathLib): real
    {
      math.Sqrt(SquareDistanceTo(point))
    }

    /** Distance at most `tolerance` (inclusive); the default tolerance is 0.01. */
    predicate IsAlmostEqualTo(point: Point2D, math: MathLib, tolerance: real := 0.01)
    {
      DistanceTo(point, math) <= tolerance
    }

    function Add(vector: Vector2D): Point2D { Point2D(X + vector.X, Y + vector.Y) }

    function Subtract(vector: Vector2D): Point2D { Point2D(X - vector.X, Y - vector.Y) }

    function Scale(factor: real): Point2D { Point2D(factor * X, factor * Y) }
  }

  // ---------------------------------------------------------------- vectors

  /** The length is the square root of the squared length, and vanishes only for the zero vector. */
  lemma LengthProperties(v: Vector2D, math: MathLib)
    requires Lawful(math)
    ensures 0.0 <= v.Length(math)
    ensures v.Length(math) * v.Length(math) == v.SquareLength()
    ensures v.Length(math) == 0.0 <==> v == Vector2D.Zero()
  {
    SqrtZeroIff(math, v.SquareLength());
    SumOfSquares2(v.X, v.Y);
  }

  /** Normalize gives a unit vector pointing the same way, and scaling it back by the length restores the vector. */
  lemma NormalizeIsUnit(v: Vector2D, math: MathLib)
    requires Lawful(math) && v != Vector2D.Zero()
    ensures v.Length(math) != 0.0
    ensures v.Normalize(math).SquareLength() == 1.0
    ensures v.Normalize(math).Length(math) == 1.0
    ensures v.Normalize(math).Scaled(v.Length(math)) == v
    ensures v.IsEqualTo(v.Normalize(math))
  {
    LengthProperties(v, math);
    var l := v.Length(math);
    UnitAfterDivision2(v.X, v.Y, l);
    SqrtOne(math);
    DivMul(v.X, l);
    DivMul(v.Y, l);
    DivPositive(1.0, l);
    SameDirectionIsEqualTo(v, 1.0 / l);
    DivScale(v.X, l);
    DivScale(v.Y, l);
    assert v.Normalize(math) == v.Scaled(1.0 / l);
  }

  /** The quarter turn is perpendicular, keeps the length, is counter-clockwise, and two of them negate. */
  lemma VerticalProperties(v: Vector2D)
    ensures v.DotProduct(v.Vertical()) == 0.0
    ensures v.Vertical().SquareLength() == v.SquareLength()
    ensures v.IsCounterClockwise(v.Vertical())
    ensures v.Vertical().Vertical() == v.Negate()
  {
  }

  /** Negation is an involution and adds up to zero. */
  lemma NegateProperties(v: Vector2D)
    ensures v.Negate().Negate() == v
    ensures v.Plus(v.Negate()) == Vector2D.Zero()
    ensures v.Negate() == v.Scaled(-1.0)
  {
  }

  /** Addition and subtraction undo each other; the two scalar products agree. */
  lemma ArithmeticProperties(a: Vector2D, b: Vector2D, k: real)
    ensures a.Plus(b).Minus(b) == a
    ensures a.Minus(b).Plus(b) == a
    ensures a.Plus(b) == b.Plus(a)
    ensures Vector2D.Times(k, a) == a.Scaled(k)
    ensures a.Scaled(k).DotProduct(b) == k * a.DotProduct(b)
  {
  }

  /** The dot product is symmetric, and a vector's dot product with itself is its squared length. */
  lemma DotProductProperties(a: Vector2D, b: Vector2D)
    ensures a.DotProduct(b) == b.DotProduct(a)
    ensures a.DotProduct(a) == a.SquareLength()
  {
  }

  /** The angle lies in [0, pi] and does not depend on the order of the two vectors. */
  lemma AngleToRange(a: Vector2D, b: Vector2D, math: MathLib)
    requires Lawful(math)
    requires b.Length(math) != 0.0 && a.Length(math) != 0.0
    ensures 0.0 <= a.AngleTo(b, math) <= math.PI
    ensures a.AngleTo(b, math) == b.AngleTo(a, math)
  {
    assert a.Length(math) * b.Length(math) == b.Length(math) * a.Length(math);
  }

  /** A non-zero vector makes angle 0 with itself and angle pi with its negation. */
  lemma AngleToSelfAndOpposite(v: Vector2D, math: MathLib)
    requires Lawful(math) && v != Vector2D.Zero()
    ensures v.Length(math) != 0.0 && v.Negate().Length(math) != 0.0
    ensures v.AngleTo(v, math) == 0.0
    ensures v.Negate().AngleTo(v, math) == math.PI
  {
    CosineOfSelf(v, math);
    CosineOfOpposite(v, math);
  }

  lemma CosineOfSelf(v: Vector2D, math: MathLib)
    requires Lawful(math) && v != Vector2D.Zero()
    ensures v.Length(math) != 0.0
    ensures v.Cosine(v, math) == 1.0
  {
    LengthProperties(v, math);
    CosineFromLengths(v, v, math, 1.0);
  }

  lemma CosineOfOpposite(v: Vector2D, math: MathLib)
    requires Lawful(math) && v != Vector2D.Zero()
    ensures v.Length(math) != 0.0 && v.Negate().Length(math) == v.Length(math)
    ensures v.Negate().Cosine(v, math) == -1.0
  {
    LengthProperties(v, math);
    NegateLength(v, math);
    CosineFromLengths(v.Negate(), v, math, -1.0);
  }

  /** The cosine is c when the dot product is c times the product of two equal lengths. */
  lemma CosineFromLengths(w: Vector2D, v: Vector2D, math: MathLib, c: real)
    requires v.Length(math) != 0.0 && w.Length(math) == v.Length(math)
    requires v.Length(math) * v.Length(math) == v.SquareLength()
    requires w.DotProduct(v) == c * v.SquareLength()
    ensures w.Cosine(v, math) == c
  {
    assert v.Length(math) * w.Length(math) == v.SquareLength();
    DivUnique(w.DotProduct(v), v.Length(math) * w.Length(math), c);
  }

  /** Negation keeps the length. */
  lemma NegateLength(v: Vector2D, math: MathLib)
    ensures v.Negate().SquareLength() == v.SquareLength()
    ensures v.Negate().Length(math) == v.Length(math)
  {
  }

  /** IsEqualTo means the other vector is a positive multiple of this one. */
  lemma IsEqualToMeansSameDirection(v: Vector2D, w: Vector2D)
    requires v.IsEqualTo(w)
    ensures v.SquareLength() > 0.0
    ensures w == v.Scaled(v.DotProduct(w) / v.SquareLength())
  {
    SameDirectionX(v, w);
    SameDirectionY(v, w);
  }

  /** A vector with a positive dot product against another is not zero. */
  lemma PositiveSquareLength(v: Vector2D, w: Vector2D)
    requires v.DotProduct(w) > 0.0
    ensures v.SquareLength() > 0.0
  {
    DotWithZero(w);
    SumOfSquares2(v.X, v.Y);
  }

  lemma DotWithZero(w: Vector2D)
    ensures Vector2D.Zero().DotProduct(w) == 0.0
  {
  }

  lemma SameDirectionX(v: Vector2D, w: Vector2D)
    requires v.IsEqualTo(w)
    ensures v.SquareLength() > 0.0
    ensures w.X == (v.DotProduct(w) / v.SquareLength()) * v.X
  {
    PositiveSquareLength(v, w);
    CollinearComponent(v.X, v.Y, w.X, w.Y);
    assert v.SquareLength() * w.X == v.X * v.DotProduct(w);
    ScaleComponent(v.X, w.X, v.SquareLength(), v.DotProduct(w));
  }

  lemma SameDirectionY(v: Vector2D, w: Vector2D)
    requires v.IsEqualTo(w)
    ensures v.SquareLength() > 0.0
    ensures w.Y == (v.DotProduct(w) / v.SquareLength()) * v.Y
  {
    PositiveSquareLength(v, w);
    CollinearComponent(v.Y, v.X, w.Y, w.X);
    assert v.SquareLength() * w.Y == v.Y * v.DotProduct(w);
    ScaleComponent(v.Y, w.Y, v.SquareLength(), v.DotProduct(w));
  }

  /** If `x * wy == y * wx` then `(x^2 + y^2) * wx == x * (x * wx + y * wy)`. */
  lemma CollinearComponent(x: real, y: real, wx: real, wy: real)
    requires x * wy - y * wx == 0.0
    ensures (x * x + y * y) * wx == x * (x * wx + y * wy)
  {
    MulEqual(y, x * wy - y * wx, 0.0);
  }

  /** From `s * c == a * d` with `s != 0`, the component `c` is `a` scaled by `d / s`. */
  lemma ScaleComponent(a: real, c: real, s: real, d: real)
    requires s != 0.0 && s * c == a * d
    ensures c == (d / s) * a
  {
    DivUnique(a * d, s, c);
    MulDiv(a, d, s);
  }

  /** A positive multiple of a non-zero vector IsEqualTo it. */
  lemma SameDirectionIsEqualTo(v: Vector2D, k: real)
    requires k > 0.0 && v != Vector2D.Zero()
    ensures v.IsEqualTo(v.Scaled(k))
  {
    SumOfSquares2(v.X, v.Y);
    assert v.DotProduct(v.Scaled(k)) == k * v.SquareLength();
    MulPositive(k, v.SquareLength());
  }

  /** Of two vectors at least one is counter-clockwise of the other, and both are exactly when they are collinear. */
  lemma IsCounterClockwiseTotal(a: Vector2D, b: Vector2D)
    ensures a.IsCounterClockwise(b) || b.IsCounterClockwise(a)
    ensures a.IsCounterClockwise(b) && b.IsCounterClockwise(a) <==> a.Cross(b) == 0.0
  {
  }

  // ---------------------------------------------------------------- points

  /** The vector between two points carries the first onto the second. */
  lemma BetweenProperties(pA: Point2D, pB: Point2D)
    ensures pA.Add(Vector2D.Between(pA, pB)) == pB
    ensures Vector2D.Between(pA, pB) == pB.Vector().Minus(pA.Vector())
    ensures Vector2D.Between(pA, pB).SquareLength() == pA.SquareDistanceTo(pB)
  {
  }

  /** Adding and subtracting the same vector cancel. */
  lemma AddSubtractInverse(p: Point2D, v: Vector2D)
    ensures p.Add(v).Subtract(v) == p
    ensures p.Subtract(v).Add(v) == p
    ensures p.Subtract(v) == p.Add(v.Negate())
  {
  }

  /** The distance is a symmetric, non-negative square root of the squared distance, zero only between equal points. */
  lemma DistanceProperties(p: Point2D, q: Point2D, math: MathLib)
    requires Lawful(math)
    ensures 0.0 <= p.DistanceTo(q, math)
    ensures p.DistanceTo(q, math) * p.DistanceTo(q, math) == p.SquareDistanceTo(q)
    ensures p.DistanceTo(q, math) == q.DistanceTo(p, math)
    ensures p.DistanceTo(q, math) == 0.0 <==> p == q
    ensures p.DistanceTo(q, math) == Vector2D.Between(p, q).Length(math)
  {
    var v := Vector2D.Between(p, q);
    assert p.SquareDistanceTo(q) == q.SquareDistanceTo(p);
    assert p.SquareDistanceTo(q) == v.SquareLength();
    LengthProperties(v, math);
    assert v == Vector2D.Zero() <==> p == q;
  }

  /** IsAlmostEqualTo is reflexive for any non-negative tolerance and symmetric. */
  lemma IsAlmostEqualToProperties(p: Point2D, q: Point2D, math: MathLib, tolerance: real)
    requires Lawful(math) && 0.0 <= tolerance
    ensures p.IsAlmostEqualTo(p, math, tolerance)
    ensures p.IsAlmostEqualTo(q, math, tolerance) <==> q.IsAlmostEqualTo(p, math, tolerance)
  {
    DistanceProperties(p, q, math);
    DistanceProperties(p, p, math);
  }
}
