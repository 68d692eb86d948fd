/** Vector3D and Point3D: the space value types every 3D entity is built from. */
module Primitives3D {
  import opened RealMath
  import opened Primitives2D
  import opened Matrices

  /** A free vector of space. */
  datatype Vector3D = Vector3D(X: real, Y: real, Z: real)
  {
    /** The vector from `pA` to `pB` (the constructor taking two points). */
    static function Between(pA: Point3D, pB: Point3D): Vector3D
    {
      Vector3D(pB.X - pA.X, pB.Y - pA.Y, pB.Z - pA.Z)
    }

    /** The constructor lifting a plane vector to height `z`. */
    static function FromVector2D(vector: Vector2D, z: real := 0.0): Vector3D
    {
      Vector3D(vector.X, vector.Y, z)
    }

    static function BasisX(): Vector3D { Vector3D(1.0, 0.0, 0.0) }
    static function BasisY(): Vector3D { Vector3D(0.0, 1.0, 0.0) }
    static function BasisZ(): Vector3D { Vector3D(0.0, 0.0, 1.0) }
    static function Zero(): Vector3D { Vector3D(0.0, 0.0, 0.0) }

    /** The homogeneous column (X, Y, Z, 1): the source gives a vector the same last entry as a point. */
    function Matrix(): (m: Mat)
      ensures m.Valid() && m.rows == 4 && m.cols == 1
    {
      Mat(4, 1, [[X], [Y], [Z], [1.0]])
    }

    function SquareLength(): real { X * X + Y * Y + Z * Z }

    function Length(math: MathLib): real { math.Sqrt(SquareLength()) }

    function Negate(): Vector3D { Vector3D(-X, -Y, -Z) }

    /** Each component divided by the length; the source divides by zero for a zero vector. */
    function Normalize(math: MathLib): Vector3D
      requires Length(math) != 0.0
    {
      Vector3D(X / Length(math), Y / Length(math), Z / Length(math))
    }

    function DotProduct(other: Vector3D): real { X * other.X + Y * other.Y + Z * other.Z }

    function CrossProduct(other: Vector3D): Vector3D
    {
      Vector3D(Y * other.Z - Z * other.Y, Z * other.X - X * other.Z, X * other.Y - Y * other.X)
    }

    /** Same direction: positive dot product and a cross product shorter than the tolerance. */
    predicate IsAlmostEqualTo(other: Vector3D, math: MathLib)
    {
      DotProduct(other) > 0.0 && CrossProduct(other).Length(math) < Tolerance
    }

    /** The cosine of the angle between the two vectors, by the law of cosines. */
    function Cosine(other: Vector3D, math: MathLib): real
      requires Length(math) != 0.0 && other.Length(math) != 0.0
    {
      DotProduct(other) / (Length(math) * other.Length(math))
    }

    /** The angle in [0, pi] by the law of cosines, clamped at the ends. */
    function AngleTo(other: Vector3D, math: MathLib): real
      requires Length(math) != 0.0 && other.Length(math) != 0.0
    {
      var temp := Cosine(other, math);
      if temp >= 1.0 then 0.0
      else if temp <= -1.0 then math.PI
      else math.Acos(temp)
    }

    function Plus(other: Vector3D): Vector3D { Vector3D(X + other.X, Y + other.Y, Z + other.Z) }

    function Minus(other: Vector3D): Vector3D { Vector3D(X - other.X, Y - other.Y, Z - other.Z) }

    /** `vector * value`. */
    function Scaled(value: real): Vector3D { Vector3D(value * X, value * Y, value * Z) }

    /** `value * vector`. */
    static function Times(value: real, vector: Vector3D): Vector3D
    {
      Vector3D(value * vector.X, value * vector.Y, value * vector.Z)
    }
  }

  /** A point of space. */
  datatype Point3D = Point3D(X: real, Y: real, Z: real)
  {
    static function Zero(): Point3D { Point3D(0.0, 0.0, 0.0) }

    /** The constructor lifting a plane point to height `z`. */
    static function FromPoint2D(point: Point2D, z: real := 0.0): Point3D
    {
      Point3D(point.X, point.Y, z)
    }

    /** The position vector of the point. */
    function Vector(): Vector3D { Vector3D(X, Y, Z) }

    /** The homogeneous column (X, Y, Z, 1). */
    function Matrix(): (m: Mat)
      ensures m.Valid() && m.rows == 4 && m.cols == 1
    {
      Mat(4, 1, [[X], [Y], [Z], [1.0]])
    }

    function SquareDistanceTo(other: Point3D): real
    {
      (other.X - X) * (other.X - X) + (other.Y - Y) * (other.Y - Y) + (other.Z - Z) * (other.Z - Z)
    }

    function DistanceTo(other: Point3D, math: MathLib): real
    {
      math.Sqrt(SquareDistanceTo(other))
    }

    /** The squared distance between the projections on the XY plane. */
    function ProjectSquareDistanceTo(p2: Point3D): real
    {
      (p2.X - X) * (p2.X - X) + (p2.Y - Y) * (p2.Y - Y)
    }

    /** The distance between the projections on the XY plane. */
    function ProjectDistanceTo(p2: Point3D, math: MathLib): real
    {
      math.Sqrt(ProjectSquareDistanceTo(p2))
    }

    /** Distance strictly below `tolerance`; the default tolerance is 0.01. */
    predicate IsAlmostEqualTo(point: Point3D, math: MathLib, tolerance: real := 0.01)
    {
      DistanceTo(point, math) < tolerance
    }

    function Add(vector: Vector3D): Point3D { Point3D(X + vector.X, Y + vector.Y, Z + vector.Z) }

    function Subtract(vector: Vector3D): Point3D { Point3D(X - vector.X, Y - vector.Y, Z - vector.Z) }

    function Scale(factor: real): Point3D { Point3D(factor * X, factor * Y, factor * Z) }
  }

  // ---------------------------------------------------------------- vectors

  /** The length is the square root of the squared length, and vanishes only for the zero vector. */
  lemma LengthProperties(v: Vector3D, math: MathLib)
    requires Lawful(math)
    ensures 0.0 <= v.Length(math)
    ensures v.Length(math) * v.Length(math) == v.SquareLength()
    ensures v.Length(math) == 0.0 <==> v == Vector3D.Zero()
  {
    SqrtZeroIff(math, v.SquareLength());
    SumOfSquares3(v.X, v.Y, v.Z);
  }

  /** Normalising a non-zero vector gives a unit vector that the length scales back to the original. */
  lemma NormalizeIsUnit(v: Vector3D, math: MathLib)
    requires Lawful(math) && v != Vector3D.Zero()
    ensures v.Length(math) > 0.0
    ensures v.Normalize(math).SquareLength() == 1.0
    ensures v.Normalize(math).Length(math) == 1.0
    ensures v.Normalize(math).Scaled(v.Length(math)) == v
  {
    LengthProperties(v, math);
    var l := v.Length(math);
    UnitAfterDivision3(v.X, v.Y, v.Z, l);
    SqrtOne(math);
    DivMul(v.X, l);
    DivMul(v.Y, l);
    DivMul(v.Z, l);
  }

  /** Lagrange's identity: the squared cross product is the product of the squared lengths less the squared dot product. */
  lemma CrossSquare(v: Vector3D, w: Vector3D)
    ensures v.CrossProduct(w).SquareLength() == v.SquareLength() * w.SquareLength() - v.DotProduct(w) * v.DotProduct(w)
  {
    LagrangeIdentity(v.X, v.Y, v.Z, w.X, w.Y, w.Z);
  }

  lemma LagrangeIdentity(a: real, b: real, c: real, d: real, e: real, f: real)
    ensures (b * f - c * e) * (b * f - c * e) + (c * d - a * f) * (c * d - a * f) + (a * e - b * d) * (a * e - b * d)
      == (a * a + b * b + c * c) * (d * d + e * e + f * f) - (a * d + b * e + c * f) * (a * d + b * e + c * f)
  {
  }

  /** The cross product is perpendicular to its first operand. */
  lemma CrossPerpendicularLeft(a: Vector3D, b: Vector3D)
    ensures a.CrossProduct(b).DotProduct(a) == 0.0
  {
    assert a.X * (a.Y * b.Z) == a.Y * (a.X * b.Z);
    assert a.Y * (a.Z * b.X) == a.Z * (a.Y * b.X);
    assert a.Z * (a.X * b.Y) == a.X * (a.Z * b.Y);
  }

  /** The cross product is perpendicular to its second operand. */
  lemma CrossPerpendicularRight(a: Vector3D, b: Vector3D)
    ensures a.CrossProduct(b).DotProduct(b) == 0.0
  {
    assert b.X * (a.Y * b.Z) == b.Z * (a.Y * b.X);
    assert b.Y * (a.Z * b.X) == b.X * (a.Z * b.Y);
    assert b.Z * (a.X * b.Y) == b.Y * (a.X * b.Z);
  }

  /** The cross product changes sign when the operands are swapped. */
  lemma CrossAntiCommutative(a: Vector3D, b: Vector3D)
    ensures b.CrossProduct(a) == a.CrossProduct(b).Negate()
  {
  }

  /** The cross product of a vector with itself is zero. */
  lemma CrossSelfZero(a: Vector3D)
    ensures a.CrossProduct(a) == Vector3D.Zero()
  {
  }

  /** The cross product is perpendicular to both operands, anti-commutative, and zero on a vector with itself. */
  lemma CrossProductProperties(a: Vector3D, b: Vector3D)
    ensures a.CrossProduct(b).DotProduct(a) == 0.0
    ensures a.CrossProduct(b).DotProduct(b) == 0.0
    ensures b.CrossProduct(a) == a.CrossProduct(b).Negate()
    ensures a.CrossProduct(a) == Vector3D.Zero()
  {
    CrossPerpendicularLeft(a, b);
    CrossPerpendicularRight(a, b);
    CrossAntiCommutative(a, b);
    CrossSelfZero(a);
  }

  /** The right-hand rule: X cross Y is Z. */
  lemma BasisXCrossBasisY()
    ensures Vector3D.BasisX().CrossProduct(Vector3D.BasisY()) == Vector3D.BasisZ()
  {
  }

  /** The right-hand rule: Y cross Z is X. */
  lemma BasisYCrossBasisZ()
    ensures Vector3D.BasisY().CrossProduct(Vector3D.BasisZ()) == Vector3D.BasisX()
  {
  }

  /** The right-hand rule: Z cross X is Y. */
  lemma BasisZCrossBasisX()
    ensures Vector3D.BasisZ().CrossProduct(Vector3D.BasisX()) == Vector3D.BasisY()
  {
  }

  /** The dot product is symmetric, and a vector's dot product with itself is its squared length. */
  lemma DotProductProperties(a: Vector3D, b: Vector3D)
    ensures a.DotProduct(b) == b.DotProduct(a)
    ensures a.DotProduct(a) == a.SquareLength()
  {
  }

  /** Negation, sums, differences and both scalar products work componentwise and agree. */
  lemma ArithmeticProperties(a: Vector3D, b: Vector3D, k: real)
    ensures a.Negate().Negate() == a
    ensures a.Plus(a.Negate()) == Vector3D.Zero()
    ensures a.Negate() == a.Scaled(-1.0)
    ensures a.Plus(b).Minus(b) == a
    ensures a.Minus(b).Plus(b) == a
    ensures Vector3D.Times(k, a) == a.Scaled(k)
    ensures a.Scaled(k).DotProduct(b) == k * a.DotProduct(b)
  {
  }

  /** Lifting a plane vector keeps its X and Y and sets Z. */
  lemma FromVector2DProperties(v: Vector2D, z: real)
    ensures Vector3D.FromVector2D(v, z).X == v.X && Vector3D.FromVector2D(v, z).Y == v.Y
    ensures Vector3D.FromVector2D(v, z).Z == z
    ensures Vector3D.FromVector2D(v).Z == 0.0
  {
  }

  lemma DotWithZero(w: Vector3D)
    ensures Vector3D.Zero().DotProduct(w) == 0.0
  {
  }

  /** A non-zero vector has a positive dot product with itself. */
  lemma PositiveSelfDot(v: Vector3D)
    requires v != Vector3D.Zero()
    ensures v.DotProduct(v) > 0.0
  {
    SumOfSquares3(v.X, v.Y, v.Z);
  }

  /** The zero vector has length zero. */
  lemma ZeroLength(math: MathLib)
    requires Lawful(math)
    ensures Vector3D.Zero().Length(math) == 0.0
  {
    SqrtZero(math);
  }

  /** A non-zero vector IsAlmostEqualTo itself. */
  lemma IsAlmostEqualToSelf(v: Vector3D, math: MathLib)
    requires Lawful(math) && v != Vector3D.Zero()
    ensures v.IsAlmostEqualTo(v, math)
  {
    PositiveSelfDot(v);
    CrossSelfZero(v);
    ZeroLength(math);
  }

  /** No vector IsAlmostEqualTo its own negation. */
  lemma NotAlmostEqualToNegation(v: Vector3D, math: MathLib)
    ensures !v.IsAlmostEqualTo(v.Negate(), math)
  {
    SumOfSquares3(v.X, v.Y, v.Z);
    assert v.DotProduct(v.Negate()) == -v.SquareLength();
  }

  /** The angle lies in [0, pi]. */
  lemma AngleToRange(a: Vector3D, b: Vector3D, math: MathLib)
    requires Lawful(math)
    requires a.Length(math) != 0.0 && b.Length(math) != 0.0
    ensures 0.0 <= a.AngleTo(b, math) <= math.PI
  {
  }

  // ---------------------------------------------------------------- points

  /** The vector between two points carries the first onto the second; its squared length is the squared distance. */
  lemma BetweenProperties(pA: Point3D, pB: Point3D)
    ensures pA.Add(Vector3D.Between(pA, pB)) == pB
    ensures Vector3D.Between(pA, pB) == pB.Vector().Minus(pA.Vector())
    ensures Vector3D.Between(pA, pB).SquareLength() == pA.SquareDistanceTo(pB)
  {
  }

  /** Adding and subtracting the same vector cancel. */
  lemma AddSubtractInverse(p: Point3D, v: Vector3D)
    ensures p.Add(v).Subtract(v) == p
    ensures p.Subtract(v).Add(v) == p
    ensures p.Subtract(v) == p.Add(v.Negate())
  {
  }

  /** Lifting a plane point keeps X and Y and sets Z; Scale multiplies every coordinate. */
  lemma FromPoint2DAndScale(p: Point2D, z: real, q: Point3D, f: real)
    ensures Point3D.FromPoint2D(p, z) == Point3D(p.X, p.Y, z)
    ensures Point3D.FromPoint2D(p) == Point3D(p.X, p.Y, 0.0)
    ensures q.Scale(f).Vector() == q.Vector().Scaled(f)
    ensures q.Scale(1.0) == q && q.Scale(0.0) == Point3D.Zero()
  {
  }

  /** The squared distance is symmetric, non-negative and zero exactly between equal points. */
  lemma SquareDistanceProperties(p: Point3D, q: Point3D)
    ensures p.SquareDistanceTo(q) == q.SquareDistanceTo(p)
    ensures 0.0 <= p.SquareDistanceTo(q)
    ensures p.SquareDistanceTo(q) == 0.0 <==> p == q
  {
    BetweenProperties(p, q);
    SumOfSquares3(q.X - p.X, q.Y - p.Y, q.Z - p.Z);
    assert Vector3D.Between(p, q) == Vector3D.Zero() <==> p == q;
  }

  /** The distance is a symmetric, non-negative square root of the squared distance, zero only between equal points. */
  lemma DistanceProperties(p: Point3D, q: Point3D, math: MathLib)
    requires Lawful(math)
    ensures 0.0 <= p.DistanceTo(q, math)
    ensures p.DistanceTo(q, math) * p.DistanceTo(q, math) == p.SquareDistanceTo(q)
    ensures p.DistanceTo(q, math) == q.DistanceTo(p, math)
    ensures p.DistanceTo(q, math) == 0.0 <==> p == q
  {
    SquareDistanceProperties(p, q);
    SqrtZeroIff(math, p.SquareDistanceTo(q));
  }

  /** The projected distance ignores Z and is the plane distance of the XY projections. */
  lemma ProjectDistanceIgnoresZ(p: Point3D, q: Point3D, z1: real, z2: real, math: MathLib)
    ensures p.ProjectDistanceTo(q, math) == Point3D(p.X, p.Y, z1).ProjectDistanceTo(Point3D(q.X, q.Y, z2), math)
    ensures p.ProjectDistanceTo(q, math) == Point2D(p.X, p.Y).DistanceTo(Point2D(q.X, q.Y), math)
  {
    assert p.ProjectSquareDistanceTo(q) == Point3D(p.X, p.Y, z1).ProjectSquareDistanceTo(Point3D(q.X, q.Y, z2));
    assert p.ProjectSquareDistanceTo(q) == Point2D(p.X, p.Y).SquareDistanceTo(Point2D(q.X, q.Y));
  }

  /** IsAlmostEqualTo is strict: reflexive only for a positive tolerance, never at distance equal to the tolerance, and symmetric. */
  lemma IsAlmostEqualToProperties(p: Point3D, q: Point3D, math: MathLib, tolerance: real)
    requires Lawful(math)
    ensures p.IsAlmostEqualTo(p, math, tolerance) <==> 0.0 < tolerance
    ensures !p.IsAlmostEqualTo(q, math, p.DistanceTo(q, math))
    ensures p.IsAlmostEqualTo(q, math, tolerance) <==> q.IsAlmostEqualTo(p, math, tolerance)
  {
    DistanceToSelf(p, math);
    DistanceSymmetric(p, q, math);
  }

  lemma DistanceToSelf(p: Point3D, math: MathLib)
    requires Lawful(math)
    ensures p.DistanceTo(p, math) == 0.0
  {
    assert p.SquareDistanceTo(p) == 0.0;
    SqrtZero(math);
  }

  lemma DistanceSymmetric(p: Point3D, q: Point3D, math: MathLib)
    ensures p.DistanceTo(q, math) == q.DistanceTo(p, math)
  {
    assert p.SquareDistanceTo(q) == q.SquareDistanceTo(p);
  }
}
