/**
 * Transform2D: a plane coordinate frame held as the nine entries of a 3x3
 * homogeneous matrix whose columns are the X basis, the Y basis and the origin.
 * Every operation builds its result from matrix products, so the operations are
 * modelled on `Mat` values and the matrix functions of `Matrices`.
 */
module Transforms2D {
  import opened RealMath
  import opened Results
  import opened Matrices
  import opened Primitives2D

  /**
   * The nine entries, row by row: (XX, YX, OriginX), (XY, YY, OriginY) and the
   * homogeneous row (XH, YH, OriginH).
   */
  datatype Transform2D = Transform2D(
    BasisXX: real, BasisYX: real, OriginX: real,
    BasisXY: real, BasisYY: real, OriginY: real,
    BasisXH: real, BasisYH: real, OriginH: real)
  {
    function BasisX(): Vector2D { Vector2D(BasisXX, BasisXY) }
    function BasisY(): Vector2D { Vector2D(BasisYX, BasisYY) }
    function Origin(): Point2D { Point2D(OriginX, OriginY) }

    /** The homogeneous row is (0, 0, 1): what every public way of building a frame produces. */
    predicate IsAffine()
    {
      BasisXH == 0.0 && BasisYH == 0.0 && OriginH == 1.0
    }

    /** The matrix whose columns are the X basis, the Y basis and the origin. */
    function Matrix(): (m: Mat)
      ensures m.Valid() && m.rows == 3 && m.cols == 3
    {
      Mat(3, 3, [[BasisXX, BasisYX, OriginX], [BasisXY, BasisYY, OriginY], [BasisXH, BasisYH, OriginH]])
    }

    /** The X basis turns counter-clockwise, by strictly less than a half turn, onto the Y basis. */
    predicate IsRightHand()
    {
      BasisX().X * BasisY().Y > BasisX().Y * BasisY().X
    }

    /** The first two entries of the matrix times the homogeneous column of the point. */
    function OfPoint(point: Point2D): Point2D
    {
      var result := MatrixProduct(Matrix(), point.Matrix());
      Point2D(result.cells[0][0], result.cells[1][0])
    }

    /** As for a point (the column of a vector also ends in 1), then the origin taken off again. */
    function OfVector(vector: Vector2D): Vector2D
    {
      var result := MatrixProduct(Matrix(), vector.Matrix());
      Vector2D(result.cells[0][0] - OriginX, result.cells[1][0] - OriginY)
    }

    /** The frame of the matrix product `this * other`. */
    function Multiply(other: Transform2D): Transform2D
    {
      OfMatrix(MatrixProduct(Matrix(), other.Matrix()))
    }

    /** The frame of the inverse matrix; the source divides by a zero determinant otherwise. */
    function Inverse(): Transform2D
      requires Det(Matrix()) != 0.0
    {
      OfMatrix(Matrices.Inverse(Matrix()))
    }
  }

  /** The constructor from an origin and two basis vectors. */
  function FromFrame(origin: Point2D, basisX: Vector2D, basisY: Vector2D): (t: Transform2D)
    ensures t.Origin() == origin && t.BasisX() == basisX && t.BasisY() == basisY && t.IsAffine()
  {
    Transform2D(basisX.X, basisY.X, origin.X, basisX.Y, basisY.Y, origin.Y, 0.0, 0.0, 1.0)
  }

  /** The entries of a three-by-three matrix, read column by column into the frame. */
  function OfMatrix(matrix: Mat): (t: Transform2D)
    requires matrix.Valid() && matrix.rows == 3 && matrix.cols == 3
    ensures t.Matrix() == matrix
  {
    var c := matrix.cells;
    assert c == [c[0], c[1], c[2]];
    assert c[0] == [c[0][0], c[0][1], c[0][2]];
    assert c[1] == [c[1][0], c[1][1], c[1][2]];
    assert c[2] == [c[2][0], c[2][1], c[2][2]];
    Transform2D(c[0][0], c[0][1], c[0][2], c[1][0], c[1][1], c[1][2], c[2][0], c[2][1], c[2][2])
  }

  /** The constructor from a matrix: it refuses any size other than three by three. */
  function FromMatrix(matrix: Mat): Result<Transform2D>
    requires matrix.Valid()
  {
    if matrix.rows != 3 || matrix.cols != 3 then Failure(Argument) else Success(OfMatrix(matrix))
  }

  function Identity(): Transform2D
  {
    FromFrame(Point2D.Zero(), Vector2D.BasisX(), Vector2D.BasisY())
  }

  function CreateTranslation(vector: Vector2D): Transform2D
  {
    FromFrame(Point2D.Zero().Add(vector), Vector2D.BasisX(), Vector2D.BasisY())
  }

  /** The rotation by `angle` about the origin: the bases are (cos, sin) and (-sin, cos). */
  function CreateRotation(angle: real, math: MathLib): Transform2D
  {
    FromFrame(Point2D.Zero(),
      Vector2D(math.Cos(angle), math.Sin(angle)),
      Vector2D(-math.Sin(angle), math.Cos(angle)))
  }

  /** Move the centre to the origin, rotate, move back. */
  function CreateRotationAtPoint(angle: real, origin: Point2D, math: MathLib): Transform2D
  {
    var transA := CreateTranslation(origin.Vector());
    var transB := CreateRotation(angle, math);
    var transC := CreateTranslation(origin.Vector().Negate());
    transA.Multiply(transB).Multiply(transC)
  }

  function CreateScale(x: real, y: real): Transform2D
  {
    FromFrame(Point2D.Zero(), Vector2D.Times(x, Vector2D.BasisX()), Vector2D.Times(y, Vector2D.BasisY()))
  }

  /** Move the centre to the origin, scale, move back. */
  function CreateScaleAtPoint(x: real, y: real, origin: Point2D): Transform2D
  {
    var transA := CreateTranslation(origin.Vector());
    var transB := CreateScale(x, y);
    var transC := CreateTranslation(origin.Vector().Negate());
    transA.Multiply(transB).Multiply(transC)
  }

  /**
   * The divisions `CreateReflection` performs are by non-zero lengths: the
   * axis itself, and in the general branch the axis minus each basis vector.
   */
  predicate ReflectionDefined(vector: Vector2D, math: MathLib)
  {
    vector.Length(math) != 0.0 &&
    (var v := vector.Normalize(math);
     v.IsEqualTo(Vector2D.BasisX()) || v.IsEqualTo(Vector2D.BasisY()) ||
     (vector.Minus(Vector2D.BasisX()).Length(math) != 0.0 && vector.Minus(Vector2D.BasisY()).Length(math) != 0.0))
  }

  /**
   * The mirror in the line through the origin along `vector`: the two axis
   * directions are special cases; any other direction takes its bases from the
   * axis (not normalised) minus each basis vector, normalised.
   */
  function CreateReflection(vector: Vector2D, math: MathLib): Transform2D
    requires ReflectionDefined(vector, math)
  {
    var v := vector.Normalize(math);
    if v.IsEqualTo(Vector2D.BasisX()) then
      FromFrame(Point2D.Zero(), Vector2D.BasisX(), Vector2D.BasisY().Negate())
    else if v.IsEqualTo(Vector2D.BasisY()) then
      FromFrame(Point2D.Zero(), Vector2D.BasisX().Negate(), Vector2D.BasisY())
    else
      FromFrame(Point2D.Zero(),
        vector.Minus(Vector2D.BasisX()).Normalize(math),
        vector.Minus(Vector2D.BasisY()).Normalize(math))
  }

  /**
   * The mirror in the line through the origin along `vector`, written as a
   * true reflection: with `u` the unit axis, the bases are the images of the
   * two basis vectors, (ux^2 - uy^2, 2 ux uy) and (2 ux uy, uy^2 - ux^2).
   * It agrees with `CreateReflection` on the two special cases and replaces
   * its general branch.
   */
  function CreateMirror(vector: Vector2D, math: MathLib): Transform2D
    requires vector.Length(math) != 0.0
  {
    MirrorFrame(vector.Normalize(math))
  }

  /** The mirror frame of a unit axis `u`. */
  function MirrorFrame(u: Vector2D): Transform2D
  {
    FromFrame(Point2D.Zero(),
      Vector2D(u.X * u.X - u.Y * u.Y, 2.0 * u.X * u.Y),
      Vector2D(2.0 * u.X * u.Y, u.Y * u.Y - u.X * u.X))
  }

  /** Move the axis point to the origin, reflect with `CreateReflection`, move back. */
  function CreateReflectionAtPoint(vector: Vector2D, origin: Point2D, math: MathLib): Transform2D
    requires ReflectionDefined(vector, math)
  {
    var transA := CreateTranslation(origin.Vector());
    var transB := CreateReflection(vector, math);
    var transC := CreateTranslation(origin.Vector().Negate());
    transA.Multiply(transB).Multiply(transC)
  }

  /** The same construction around the true mirror `CreateMirror`. */
  function CreateMirrorAtPoint(vector: Vector2D, origin: Point2D, math: MathLib): Transform2D
    requires vector.Length(math) != 0.0
  {
    var transA := CreateTranslation(origin.Vector());
    var transB := CreateMirror(vector, math);
    var transC := CreateTranslation(origin.Vector().Negate());
    transA.Multiply(transB).Multiply(transC)
  }

  // ---------------------------------------------------------------- matrix round trip

  /** The matrix constructor accepts exactly the three-by-three matrices, and reading a frame's matrix back gives the frame. */
  lemma FromMatrixRoundTrip(t: Transform2D, matrix: Mat)
    requires matrix.Valid()
    ensures FromMatrix(matrix).Success? <==> matrix.rows == 3 && matrix.cols == 3
    ensures FromMatrix(matrix).Success? ==> FromMatrix(matrix).value.Matrix() == matrix
    ensures FromMatrix(t.Matrix()) == Success(t)
  {
  }

  // ---------------------------------------------------------------- applying a frame

  /** A point maps to the origin plus its coordinates along the two bases. */
  lemma OfPointFormula(t: Transform2D, p: Point2D)
    ensures t.OfPoint(p) == t.Origin().Add(t.BasisX().Scaled(p.X)).Add(t.BasisY().Scaled(p.Y))
  {
    ProductCellOfThree(t.Matrix(), p.Matrix(), 0, 0);
    ProductCellOfThree(t.Matrix(), p.Matrix(), 1, 0);
  }

  /** The same, coordinate by coordinate. */
  lemma OfPointComponents(t: Transform2D, p: Point2D)
    ensures t.OfPoint(p).X == t.OriginX + p.X * t.BasisXX + p.Y * t.BasisYX
    ensures t.OfPoint(p).Y == t.OriginY + p.X * t.BasisXY + p.Y * t.BasisYY
  {
    OfPointFormula(t, p);
  }

  /** A vector maps to its coordinates along the two bases: the origin plays no part. */
  lemma OfVectorFormula(t: Transform2D, v: Vector2D)
    ensures t.OfVector(v) == t.BasisX().Scaled(v.X).Plus(t.BasisY().Scaled(v.Y))
  {
    ProductCellOfThree(t.Matrix(), v.Matrix(), 0, 0);
    ProductCellOfThree(t.Matrix(), v.Matrix(), 1, 0);
  }

  // ---------------------------------------------------------------- composition

  /** Multiplying by a frame whose homogeneous row is (0, 0, 1) applies that frame first. */
  lemma MultiplyComposes(a: Transform2D, b: Transform2D, p: Point2D)
    requires b.IsAffine()
    ensures a.Multiply(b).OfPoint(p) == a.OfPoint(b.OfPoint(p))
  {
    ComposesOfX(a, b, p);
    ComposesOfY(a, b, p);
  }

  lemma ComposesOfX(a: Transform2D, b: Transform2D, p: Point2D)
    requires b.IsAffine()
    ensures a.Multiply(b).OfPoint(p).X == a.OfPoint(b.OfPoint(p)).X
  {
    ProductCellOfThree(a.Matrix(), b.Matrix(), 0, 0);
    ProductCellOfThree(a.Matrix(), b.Matrix(), 0, 1);
    ProductCellOfThree(a.Matrix(), b.Matrix(), 0, 2);
    OfPointComponents(a.Multiply(b), p);
    OfPointComponents(b, p);
    OfPointComponents(a, b.OfPoint(p));
    ComposeRow(a.BasisXX, a.BasisYX, a.OriginX, b, p.X, p.Y);
  }

  lemma ComposesOfY(a: Transform2D, b: Transform2D, p: Point2D)
    requires b.IsAffine()
    ensures a.Multiply(b).OfPoint(p).Y == a.OfPoint(b.OfPoint(p)).Y
  {
    ProductCellOfThree(a.Matrix(), b.Matrix(), 1, 0);
    ProductCellOfThree(a.Matrix(), b.Matrix(), 1, 1);
    ProductCellOfThree(a.Matrix(), b.Matrix(), 1, 2);
    OfPointComponents(a.Multiply(b), p);
    OfPointComponents(b, p);
    OfPointComponents(a, b.OfPoint(p));
    ComposeRow(a.BasisXY, a.BasisYY, a.OriginY, b, p.X, p.Y);
  }

  /** One row of the product, applied to (x, y, 1), is that row applied to the image of (x, y). */
  lemma ComposeRow(r0: real, r1: real, r2: real, b: Transform2D, x: real, y: real)
    requires b.IsAffine()
    ensures (r0 * b.OriginX + r1 * b.OriginY + r2 * b.OriginH)
          + x * (r0 * b.BasisXX + r1 * b.BasisXY + r2 * b.BasisXH)
          + y * (r0 * b.BasisYX + r1 * b.BasisYY + r2 * b.BasisYH)
         == r2 + (b.OriginX + x * b.BasisXX + y * b.BasisYX) * r0
               + (b.OriginY + x * b.BasisXY + y * b.BasisYY) * r1
  {
  }

  /** The product of two frames with homogeneous row (0, 0, 1) has that row too. */
  lemma MultiplyAffine(a: Transform2D, b: Transform2D)
    requires a.IsAffine() && b.IsAffine()
    ensures a.Multiply(b).IsAffine()
  {
    ProductCellOfThree(a.Matrix(), b.Matrix(), 2, 0);
    ProductCellOfThree(a.Matrix(), b.Matrix(), 2, 1);
    ProductCellOfThree(a.Matrix(), b.Matrix(), 2, 2);
  }

  // ---------------------------------------------------------------- the named frames

  lemma IdentityFixes(p: Point2D, v: Vector2D)
    ensures Identity().OfPoint(p) == p && Identity().OfVector(v) == v
  {
    OfPointFormula(Identity(), p);
    OfVectorFormula(Identity(), v);
  }

  /** A translation moves every point by the vector and leaves vectors alone. */
  lemma TranslationMoves(vector: Vector2D, p: Point2D, v: Vector2D)
    ensures CreateTranslation(vector).OfPoint(p) == p.Add(vector)
    ensures CreateTranslation(vector).OfVector(v) == v
  {
    OfPointFormula(CreateTranslation(vector), p);
    OfVectorFormula(CreateTranslation(vector), v);
  }

  /** A scale multiplies each coordinate by its own factor. */
  lemma ScaleMultiplies(x: real, y: real, p: Point2D)
    ensures CreateScale(x, y).OfPoint(p) == Point2D(x * p.X, y * p.Y)
  {
    OfPointFormula(CreateScale(x, y), p);
  }

  /**
   * The frames built "at a point" (translate the point to the origin, apply
   * `b`, translate back) map `p` to the image of `p - origin` moved back by the
   * origin.
   */
  lemma AtPointFormula(origin: Point2D, b: Transform2D, p: Point2D)
    requires b.IsAffine()
    ensures CreateTranslation(origin.Vector()).Multiply(b).Multiply(CreateTranslation(origin.Vector().Negate())).OfPoint(p)
         == b.OfPoint(p.Add(origin.Vector().Negate())).Add(origin.Vector())
  {
    var transA := CreateTranslation(origin.Vector());
    var transC := CreateTranslation(origin.Vector().Negate());
    MultiplyComposes(transA.Multiply(b), transC, p);
    MultiplyComposes(transA, b, transC.OfPoint(p));
    TranslationMoves(origin.Vector().Negate(), p, origin.Vector());
    TranslationMoves(origin.Vector(), b.OfPoint(transC.OfPoint(p)), origin.Vector());
  }

  /** Scaling at a point moves each coordinate away from the centre by its factor. */
  lemma ScaleAtPointMultiplies(x: real, y: real, origin: Point2D, p: Point2D)
    ensures CreateScaleAtPoint(x, y, origin).OfPoint(p)
         == Point2D(x * (p.X - origin.X) + origin.X, y * (p.Y - origin.Y) + origin.Y)
  {
    AtPointFormula(origin, CreateScale(x, y), p);
    ScaleMultiplies(x, y, p.Add(origin.Vector().Negate()));
  }

  /** The unit square's corner (0.5, 0.5) moved by (0.5, 0). */
  lemma TranslationExample()
    ensures CreateTranslation(Vector2D(0.5, 0.0)).OfPoint(Point2D(0.5, 0.5)) == Point2D(1.0, 0.5)
  {
    TranslationMoves(Vector2D(0.5, 0.0), Point2D(0.5, 0.5), Vector2D(0.0, 0.0));
  }

  /** Scaling (1, 1) by (0.1, 0.5) at the origin and (2, 2) by the same factors at (1, 1). */
  lemma ScaleExamples()
    ensures CreateScale(0.1, 0.5).OfPoint(Point2D(1.0, 1.0)) == Point2D(0.1, 0.5)
    ensures CreateScaleAtPoint(0.1, 0.5, Point2D(1.0, 1.0)).OfPoint(Point2D(2.0, 2.0)) == Point2D(1.1, 1.5)
  {
    ScaleMultiplies(0.1, 0.5, Point2D(1.0, 1.0));
    ScaleAtPointMultiplies(0.1, 0.5, Point2D(1.0, 1.0), Point2D(2.0, 2.0));
  }

  // ---------------------------------------------------------------- rotation

  /** A rotation keeps the length of every vector, and the rotation by 0 is the identity. */
  lemma RotationIsRigid(angle: real, math: MathLib, v: Vector2D)
    requires Lawful(math)
    ensures CreateRotation(angle, math).OfVector(v).SquareLength() == v.SquareLength()
    ensures CreateRotation(angle, math).IsRightHand()
    ensures CreateRotation(0.0, math) == Identity()
  {
    OfVectorFormula(CreateRotation(angle, math), v);
    RotatedSquares(v.X, v.Y, math.Sin(angle), math.Cos(angle));
  }

  lemma RotatedSquares(x: real, y: real, s: real, c: real)
    requires s * s + c * c == 1.0
    ensures (x * c + y * -s) * (x * c + y * -s) + (x * s + y * c) * (x * s + y * c) == x * x + y * y
    ensures c * c > s * -s
  {
    assert (x * c + y * -s) * (x * c + y * -s) + (x * s + y * c) * (x * s + y * c) == (x * x + y * y) * (s * s + c * c);
  }

  /** Rotating about a point keeps that point where it is. */
  lemma RotationAtPointFixesCentre(angle: real, origin: Point2D, math: MathLib)
    ensures CreateRotationAtPoint(angle, origin, math).OfPoint(origin) == origin
  {
    AtPointFormula(origin, CreateRotation(angle, math), origin);
    OfPointFormula(CreateRotation(angle, math), origin.Add(origin.Vector().Negate()));
  }

  // ---------------------------------------------------------------- handedness and determinant

  /** For a frame with homogeneous row (0, 0, 1), right-handed means a positive determinant. */
  lemma RightHandIsPositiveDeterminant(t: Transform2D)
    requires t.IsAffine()
    ensures Det(t.Matrix()) == t.BasisXX * t.BasisYY - t.BasisYX * t.BasisXY
    ensures t.IsRightHand() <==> Det(t.Matrix()) > 0.0
  {
    DetThreeByThree(t.Matrix());
    Det3Affine(t.BasisXX, t.BasisYX, t.OriginX, t.BasisXY, t.BasisYY, t.OriginY, t.BasisXH, t.BasisYH, t.OriginH);
  }

  lemma Det3Affine(a: real, b: real, c: real, d: real, e: real, f: real, g: real, h: real, i: real)
    requires g == 0.0 && h == 0.0 && i == 1.0
    ensures Det3(a, b, c, d, e, f, g, h, i) == a * e - b * d
  {
  }

  // ---------------------------------------------------------------- inverse

  /**
   * The inverse of a frame with homogeneous row (0, 0, 1), written out: the
   * adjugate over the determinant, again with homogeneous row (0, 0, 1).
   */
  lemma InverseOfAffine(t: Transform2D)
    requires t.IsAffine() && Det(t.Matrix()) != 0.0
    ensures t.Inverse() == Transform2D(
      t.BasisYY / Det(t.Matrix()), (-t.BasisYX) / Det(t.Matrix()),
      (t.BasisYX * t.OriginY - t.OriginX * t.BasisYY) / Det(t.Matrix()),
      (-t.BasisXY) / Det(t.Matrix()), t.BasisXX / Det(t.Matrix()),
      (-(t.BasisXX * t.OriginY - t.OriginX * t.BasisXY)) / Det(t.Matrix()),
      0.0, 0.0, 1.0)
  {
    InverseRowX(t);
    InverseRowY(t);
    InverseBottomRow(t);
  }

  lemma InverseRowX(t: Transform2D)
    requires t.IsAffine() && Det(t.Matrix()) != 0.0
    ensures var c := Matrices.Inverse(t.Matrix()).cells;
      c[0][0] == t.BasisYY / Det(t.Matrix()) && c[0][1] == (-t.BasisYX) / Det(t.Matrix()) &&
      c[0][2] == (t.BasisYX * t.OriginY - t.OriginX * t.BasisYY) / Det(t.Matrix())
  {
    AffineMinors(t);
    InverseCellOfThree(t.Matrix(), 0, 0, t.BasisYY, t.OriginY, t.BasisYH, t.OriginH);
    InverseCellOfThree(t.Matrix(), 0, 1, t.BasisYX, t.OriginX, t.BasisYH, t.OriginH);
    InverseCellOfThree(t.Matrix(), 0, 2, t.BasisYX, t.OriginX, t.BasisYY, t.OriginY);
  }

  lemma InverseRowY(t: Transform2D)
    requires t.IsAffine() && Det(t.Matrix()) != 0.0
    ensures var c := Matrices.Inverse(t.Matrix()).cells;
      c[1][0] == (-t.BasisXY) / Det(t.Matrix()) && c[1][1] == t.BasisXX / Det(t.Matrix()) &&
      c[1][2] == (-(t.BasisXX * t.OriginY - t.OriginX * t.BasisXY)) / Det(t.Matrix())
  {
    AffineMinors(t);
    InverseCellOfThree(t.Matrix(), 1, 0, t.BasisXY, t.OriginY, t.BasisXH, t.OriginH);
    InverseCellOfThree(t.Matrix(), 1, 1, t.BasisXX, t.OriginX, t.BasisXH, t.OriginH);
    InverseCellOfThree(t.Matrix(), 1, 2, t.BasisXX, t.OriginX, t.BasisXY, t.OriginY);
  }

  lemma InverseBottomRow(t: Transform2D)
    requires t.IsAffine() && Det(t.Matrix()) != 0.0
    ensures var c := Matrices.Inverse(t.Matrix()).cells;
      c[2][0] == 0.0 && c[2][1] == 0.0 && c[2][2] == 1.0
  {
    AffineMinors(t);
    InverseCellOfThree(t.Matrix(), 2, 0, t.BasisXY, t.BasisYY, t.BasisXH, t.BasisYH);
    InverseCellOfThree(t.Matrix(), 2, 1, t.BasisXX, t.BasisYX, t.BasisXH, t.BasisYH);
    InverseCellOfThree(t.Matrix(), 2, 2, t.BasisXX, t.BasisYX, t.BasisXY, t.BasisYY);
    RightHandIsPositiveDeterminant(t);
    DivSelf(Det(t.Matrix()));
  }

  /** The nine minors of a matrix with homogeneous row (0, 0, 1). */
  lemma AffineMinors(t: Transform2D)
    requires t.IsAffine()
    ensures t.BasisYY * t.OriginH - t.OriginY * t.BasisYH == t.BasisYY
    ensures t.BasisYX * t.OriginH - t.OriginX * t.BasisYH == t.BasisYX
    ensures t.BasisXY * t.OriginH - t.OriginY * t.BasisXH == t.BasisXY
    ensures t.BasisXX * t.OriginH - t.OriginX * t.BasisXH == t.BasisXX
    ensures t.BasisXY * t.BasisYH - t.BasisYY * t.BasisXH == 0.0
    ensures t.BasisXX * t.BasisYH - t.BasisYX * t.BasisXH == 0.0
  {
  }

  /** For a frame with homogeneous row (0, 0, 1) and a non-zero determinant, the inverse undoes the frame, on either side. */
  lemma InverseUndoes(t: Transform2D, p: Point2D)
    requires t.IsAffine() && Det(t.Matrix()) != 0.0
    ensures t.Inverse().OfPoint(t.OfPoint(p)) == p
    ensures t.OfPoint(t.Inverse().OfPoint(p)) == p
  {
    InverseIsReciprocal(t);
    ReciprocalAfter(t, t.Inverse(), 1.0 / Det(t.Matrix()), p);
    ReciprocalBefore(t, t.Inverse(), 1.0 / Det(t.Matrix()), p);
  }

  /**
   * `u` is the inverse of the frame `t` written with the reciprocal `s` of
   * its determinant: s times the adjugate of the upper two rows.
   */
  predicate IsReciprocalOf(u: Transform2D, t: Transform2D, s: real)
  {
    s * (t.BasisXX * t.BasisYY - t.BasisYX * t.BasisXY) == 1.0 &&
    u.BasisXX == s * t.BasisYY && u.BasisYX == s * -t.BasisYX &&
    u.OriginX == s * (t.BasisYX * t.OriginY - t.OriginX * t.BasisYY) &&
    u.BasisXY == s * -t.BasisXY && u.BasisYY == s * t.BasisXX &&
    u.OriginY == s * -(t.BasisXX * t.OriginY - t.OriginX * t.BasisXY)
  }

  lemma InverseIsReciprocal(t: Transform2D)
    requires t.IsAffine() && Det(t.Matrix()) != 0.0
    ensures IsReciprocalOf(t.Inverse(), t, 1.0 / Det(t.Matrix()))
  {
    RightHandIsPositiveDeterminant(t);
    DivMul(1.0, Det(t.Matrix()));
    ReciprocalRowX(t);
    ReciprocalRowY(t);
  }

  lemma ReciprocalAfter(t: Transform2D, u: Transform2D, s: real, p: Point2D)
    requires IsReciprocalOf(u, t, s)
    ensures u.OfPoint(t.OfPoint(p)) == p
  {
    ReciprocalAfterOfX(t, u, s, p);
    ReciprocalAfterOfY(t, u, s, p);
  }

  lemma ReciprocalAfterOfX(t: Transform2D, u: Transform2D, s: real, p: Point2D)
    requires IsReciprocalOf(u, t, s)
    ensures u.OfPoint(t.OfPoint(p)).X == p.X
  {
    OfPointComponents(t, p);
    OfPointComponents(u, t.OfPoint(p));
    ReciprocalAfterX(t.BasisXX, t.BasisYX, t.BasisXY, t.BasisYY, t.OriginX, t.OriginY, p.X, p.Y,
      t.BasisXX * t.BasisYY - t.BasisYX * t.BasisXY, s, t.OfPoint(p).X, t.OfPoint(p).Y, u.BasisXX, u.BasisYX, u.OriginX);
  }

  lemma ReciprocalAfterOfY(t: Transform2D, u: Transform2D, s: real, p: Point2D)
    requires IsReciprocalOf(u, t, s)
    ensures u.OfPoint(t.OfPoint(p)).Y == p.Y
  {
    OfPointComponents(t, p);
    OfPointComponents(u, t.OfPoint(p));
    ReciprocalAfterY(t.BasisXX, t.BasisYX, t.BasisXY, t.BasisYY, t.OriginX, t.OriginY, p.X, p.Y,
      t.BasisXX * t.BasisYY - t.BasisYX * t.BasisXY, s, t.OfPoint(p).X, t.OfPoint(p).Y, u.BasisXY, u.BasisYY, u.OriginY);
  }

  lemma ReciprocalBefore(t: Transform2D, u: Transform2D, s: real, p: Point2D)
    requires IsReciprocalOf(u, t, s)
    ensures t.OfPoint(u.OfPoint(p)) == p
  {
    ReciprocalBeforeOfX(t, u, s, p);
    ReciprocalBeforeOfY(t, u, s, p);
  }

  lemma ReciprocalBeforeOfX(t: Transform2D, u: Transform2D, s: real, p: Point2D)
    requires IsReciprocalOf(u, t, s)
    ensures t.OfPoint(u.OfPoint(p)).X == p.X
  {
    OfPointComponents(u, p);
    OfPointComponents(t, u.OfPoint(p));
    ReciprocalBeforeX(t.BasisXX, t.BasisYX, t.BasisXY, t.BasisYY, t.OriginX, t.OriginY, p.X, p.Y,
      t.BasisXX * t.BasisYY - t.BasisYX * t.BasisXY, s, u.OfPoint(p).X, u.OfPoint(p).Y,
      u.BasisXX, u.BasisYX, u.OriginX, u.BasisXY, u.BasisYY, u.OriginY);
  }

  lemma ReciprocalBeforeOfY(t: Transform2D, u: Transform2D, s: real, p: Point2D)
    requires IsReciprocalOf(u, t, s)
    ensures t.OfPoint(u.OfPoint(p)).Y == p.Y
  {
    OfPointComponents(u, p);
    OfPointComponents(t, u.OfPoint(p));
    ReciprocalBeforeY(t.BasisXX, t.BasisYX, t.BasisXY, t.BasisYY, t.OriginX, t.OriginY, p.X, p.Y,
      t.BasisXX * t.BasisYY - t.BasisYX * t.BasisXY, s, u.OfPoint(p).X, u.OfPoint(p).Y,
      u.BasisXX, u.BasisYX, u.OriginX, u.BasisXY, u.BasisYY, u.OriginY);
  }

  lemma ReciprocalRowX(t: Transform2D)
    requires t.IsAffine() && Det(t.Matrix()) != 0.0
    ensures t.Inverse().BasisXX == (1.0 / Det(t.Matrix())) * t.BasisYY
    ensures t.Inverse().BasisYX == (1.0 / Det(t.Matrix())) * -t.BasisYX
    ensures t.Inverse().OriginX == (1.0 / Det(t.Matrix())) * (t.BasisYX * t.OriginY - t.OriginX * t.BasisYY)
  {
    InverseRowX(t);
    DivScale(t.BasisYY, Det(t.Matrix()));
    DivScale(-t.BasisYX, Det(t.Matrix()));
    DivScale(t.BasisYX * t.OriginY - t.OriginX * t.BasisYY, Det(t.Matrix()));
  }

  lemma ReciprocalRowY(t: Transform2D)
    requires t.IsAffine() && Det(t.Matrix()) != 0.0
    ensures t.Inverse().BasisXY == (1.0 / Det(t.Matrix())) * -t.BasisXY
    ensures t.Inverse().BasisYY == (1.0 / Det(t.Matrix())) * t.BasisXX
    ensures t.Inverse().OriginY == (1.0 / Det(t.Matrix())) * -(t.BasisXX * t.OriginY - t.OriginX * t.BasisXY)
  {
    InverseRowY(t);
    DivScale(-t.BasisXY, Det(t.Matrix()));
    DivScale(t.BasisXX, Det(t.Matrix()));
    DivScale(-(t.BasisXX * t.OriginY - t.OriginX * t.BasisXY), Det(t.Matrix()));
  }

  /**
   * The first row of the inverse, s (d, -b, b oy - ox d) with `s det == 1`,
   * applied to the image (qx, qy) of (x, y) under rows (a, b, ox) and (c, d, oy).
   */
  lemma ReciprocalAfterX(a: real, b: real, c: real, d: real, ox: real, oy: real, x: real, y: real, det: real, s: real,
                         qx: real, qy: real, i00: real, i01: real, i02: real)
    requires det == a * d - b * c && s * det == 1.0
    requires qx == ox + x * a + y * b && qy == oy + x * c + y * d
    requires i00 == s * d && i01 == s * -b && i02 == s * (b * oy - ox * d)
    ensures i02 + qx * i00 + qy * i01 == x
  {
    assert i02 + qx * i00 + qy * i01 == (s * det) * x;
  }

  /** The second row of the inverse, s (-c, a, -(a oy - ox c)), likewise. */
  lemma ReciprocalAfterY(a: real, b: real, c: real, d: real, ox: real, oy: real, x: real, y: real, det: real, s: real,
                         qx: real, qy: real, i10: real, i11: real, i12: real)
    requires det == a * d - b * c && s * det == 1.0
    requires qx == ox + x * a + y * b && qy == oy + x * c + y * d
    requires i10 == s * -c && i11 == s * a && i12 == s * -(a * oy - ox * c)
    ensures i12 + qx * i10 + qy * i11 == y
  {
    assert i12 + qx * i10 + qy * i11 == (s * det) * y;
  }

  /** The row (a, b, ox) applied to the image (qx, qy) of (x, y) under the inverse. */
  lemma ReciprocalBeforeX(a: real, b: real, c: real, d: real, ox: real, oy: real, x: real, y: real, det: real, s: real,
                          qx: real, qy: real, i00: real, i01: real, i02: real, i10: real, i11: real, i12: real)
    requires det == a * d - b * c && s * det == 1.0
    requires i00 == s * d && i01 == s * -b && i02 == s * (b * oy - ox * d)
    requires i10 == s * -c && i11 == s * a && i12 == s * -(a * oy - ox * c)
    requires qx == i02 + x * i00 + y * i01 && qy == i12 + x * i10 + y * i11
    ensures ox + qx * a + qy * b == x
  {
    assert qx * a + qy * b == (s * det) * (x - ox);
  }

  /** The row (c, d, oy) applied to the image (qx, qy) of (x, y) under the inverse. */
  lemma ReciprocalBeforeY(a: real, b: real, c: real, d: real, ox: real, oy: real, x: real, y: real, det: real, s: real,
                          qx: real, qy: real, i00: real, i01: real, i02: real, i10: real, i11: real, i12: real)
    requires det == a * d - b * c && s * det == 1.0
    requires i00 == s * d && i01 == s * -b && i02 == s * (b * oy - ox * d)
    requires i10 == s * -c && i11 == s * a && i12 == s * -(a * oy - ox * c)
    requires qx == i02 + x * i00 + y * i01 && qy == i12 + x * i10 + y * i11
    ensures oy + qx * c + qy * d == y
  {
    assert qx * c + qy * d == (s * det) * (y - oy);
  }

  // ---------------------------------------------------------------- reflection

  /** An axis vector of positive length k has length k. */
  lemma AxisLength(k: real, math: MathLib)
    requires Lawful(math) && 0.0 < k
    ensures Vector2D(0.0, k).Length(math) == k
    ensures Vector2D(k, 0.0).Length(math) == k
  {
    assert Vector2D(0.0, k).SquareLength() == k * k;
    assert Vector2D(k, 0.0).SquareLength() == k * k;
    SqrtOfSquare(math, k);
  }

  /** Along the positive X axis the special case mirrors in the X axis. */
  lemma ReflectionInXAxis(k: real, math: MathLib, p: Point2D)
    requires Lawful(math) && 0.0 < k
    ensures ReflectionDefined(Vector2D(k, 0.0), math)
    ensures CreateReflection(Vector2D(k, 0.0), math).OfPoint(p) == Point2D(p.X, -p.Y)
  {
    AxisLength(k, math);
    DivSelf(k);
    assert Vector2D(k, 0.0).Normalize(math) == Vector2D.BasisX();
    MirrorInXAxis(Vector2D(k, 0.0), math, p);
  }

  lemma MirrorInXAxis(vector: Vector2D, math: MathLib, p: Point2D)
    requires vector.Length(math) != 0.0 && vector.Normalize(math) == Vector2D.BasisX()
    ensures ReflectionDefined(vector, math)
    ensures CreateReflection(vector, math).OfPoint(p) == Point2D(p.X, -p.Y)
  {
    OfPointComponents(CreateReflection(vector, math), p);
  }

  /** Along the positive Y axis the special case mirrors in the Y axis. */
  lemma ReflectionInYAxis(k: real, math: MathLib, p: Point2D)
    requires Lawful(math) && 0.0 < k
    ensures ReflectionDefined(Vector2D(0.0, k), math)
    ensures CreateReflection(Vector2D(0.0, k), math).OfPoint(p) == Point2D(-p.X, p.Y)
  {
    AxisLength(k, math);
    DivSelf(k);
    assert Vector2D(0.0, k).Normalize(math) == Vector2D.BasisY();
    MirrorInYAxis(Vector2D(0.0, k), math, p);
  }

  lemma MirrorInYAxis(vector: Vector2D, math: MathLib, p: Point2D)
    requires vector.Length(math) != 0.0 && vector.Normalize(math) == Vector2D.BasisY()
    ensures ReflectionDefined(vector, math)
    ensures CreateReflection(vector, math).OfPoint(p) == Point2D(-p.X, p.Y)
  {
    OfPointComponents(CreateReflection(vector, math), p);
  }

  /**
   * The general branch, as written, does not mirror: along (0, -1) the point
   * (0, 1), which lies on the mirror line, is sent to (0, -1).
   */
  lemma ReflectionMovesAxisPoint(math: MathLib)
    requires Lawful(math)
    ensures ReflectionDefined(Vector2D(0.0, -1.0), math)
    ensures CreateReflection(Vector2D(0.0, -1.0), math).OfPoint(Point2D(0.0, 1.0)) == Point2D(0.0, -1.0)
  {
    AxisLength(1.0, math);
    AxisLength(2.0, math);
    assert Vector2D(0.0, -1.0).Length(math) == 1.0 by {
      assert Vector2D(0.0, -1.0).SquareLength() == Vector2D(0.0, 1.0).SquareLength();
    }
    assert Vector2D(0.0, -1.0).Normalize(math) == Vector2D(0.0, -1.0);
    assert Vector2D(0.0, -1.0).Minus(Vector2D.BasisY()) == Vector2D(0.0, -2.0);
    assert Vector2D(0.0, -2.0).Length(math) == 2.0 by {
      assert Vector2D(0.0, -2.0).SquareLength() == Vector2D(0.0, 2.0).SquareLength();
    }
    assert Vector2D(0.0, -2.0).Normalize(math) == Vector2D(0.0, -1.0);
    LengthProperties(Vector2D(0.0, -1.0).Minus(Vector2D.BasisX()), math);
    OfPointComponents(CreateReflection(Vector2D(0.0, -1.0), math), Point2D(0.0, 1.0));
  }

  /** The mirror along a non-zero vector is the mirror frame of its unit axis. */
  lemma CreateMirrorIsUnitMirror(vector: Vector2D, math: MathLib)
    requires Lawful(math) && vector.Length(math) != 0.0
    ensures CreateMirror(vector, math) == MirrorFrame(vector.Normalize(math))
    ensures vector.Normalize(math).SquareLength() == 1.0
  {
    LengthProperties(vector, math);
    NormalizeIsUnit(vector, math);
  }

  /** The mirror of a unit axis keeps every point of the axis where it is. */
  lemma MirrorFixesAxis(u: Vector2D, k: real)
    requires u.SquareLength() == 1.0
    ensures MirrorFrame(u).OfPoint(Point2D(k * u.X, k * u.Y)) == Point2D(k * u.X, k * u.Y)
  {
    OfPointComponents(MirrorFrame(u), Point2D(k * u.X, k * u.Y));
    MirrorAxisRow(u.X, u.Y, k);
  }

  /** It sends every point of the perpendicular through the origin to its opposite. */
  lemma MirrorNegatesNormal(u: Vector2D, k: real)
    requires u.SquareLength() == 1.0
    ensures MirrorFrame(u).OfPoint(Point2D(-k * u.Y, k * u.X)) == Point2D(k * u.Y, -k * u.X)
  {
    OfPointComponents(MirrorFrame(u), Point2D(-k * u.Y, k * u.X));
    MirrorNormalRow(u.X, u.Y, k);
  }

  /** Mirroring twice gives the point back. */
  lemma MirrorInvolution(u: Vector2D, p: Point2D)
    requires u.SquareLength() == 1.0
    ensures MirrorFrame(u).OfPoint(MirrorFrame(u).OfPoint(p)) == p
  {
    OfPointComponents(MirrorFrame(u), p);
    OfPointComponents(MirrorFrame(u), MirrorFrame(u).OfPoint(p));
    MirrorTwiceRow(u.X, u.Y, p.X, p.Y);
    MirrorTwiceRow(u.Y, u.X, p.Y, p.X);
  }

  /** On the positive X axis the mirror is the source's special case. */
  lemma MirrorAgreesOnXAxis(k: real, math: MathLib)
    requires Lawful(math) && 0.0 < k
    ensures Vector2D(k, 0.0).Length(math) == k
    ensures Vector2D(k, 0.0).Normalize(math) == Vector2D.BasisX()
    ensures CreateMirror(Vector2D(k, 0.0), math) == CreateReflection(Vector2D(k, 0.0), math)
  {
    AxisLength(k, math);
    DivSelf(k);
    assert Vector2D(k, 0.0).Normalize(math) == Vector2D.BasisX();
  }

  /** On the positive Y axis the mirror is the source's special case. */
  lemma MirrorAgreesOnYAxis(k: real, math: MathLib)
    requires Lawful(math) && 0.0 < k
    ensures Vector2D(0.0, k).Length(math) == k
    ensures Vector2D(0.0, k).Normalize(math) == Vector2D.BasisY()
    ensures CreateMirror(Vector2D(0.0, k), math) == CreateReflection(Vector2D(0.0, k), math)
  {
    AxisLength(k, math);
    DivSelf(k);
    assert Vector2D(0.0, k).Normalize(math) == Vector2D.BasisY();
  }

  lemma MirrorAxisRow(a: real, b: real, k: real)
    requires a * a + b * b == 1.0
    ensures (k * a) * (a * a - b * b) + (k * b) * (2.0 * a * b) == k * a
    ensures (k * b) * (b * b - a * a) + (k * a) * (2.0 * a * b) == k * b
  {
    assert (k * a) * (a * a - b * b) + (k * b) * (2.0 * a * b) == (k * a) * (a * a + b * b);
    assert (k * b) * (b * b - a * a) + (k * a) * (2.0 * a * b) == (k * b) * (a * a + b * b);
  }

  lemma MirrorNormalRow(a: real, b: real, k: real)
    requires a * a + b * b == 1.0
    ensures (-k * b) * (a * a - b * b) + (k * a) * (2.0 * a * b) == k * b
    ensures (-k * b) * (2.0 * a * b) + (k * a) * (b * b - a * a) == -k * a
  {
    assert (-k * b) * (a * a - b * b) + (k * a) * (2.0 * a * b) == (k * b) * (a * a + b * b);
    assert (-k * b) * (2.0 * a * b) + (k * a) * (b * b - a * a) == (-k * a) * (a * a + b * b);
  }

  lemma MirrorTwiceRow(a: real, b: real, x: real, y: real)
    requires a * a + b * b == 1.0
    ensures (x * (a * a - b * b) + y * (2.0 * a * b)) * (a * a - b * b)
          + (x * (2.0 * a * b) + y * (b * b - a * a)) * (2.0 * a * b) == x
  {
    assert (x * (a * a - b * b) + y * (2.0 * a * b)) * (a * a - b * b)
          + (x * (2.0 * a * b) + y * (b * b - a * a)) * (2.0 * a * b)
        == x * ((a * a + b * b) * (a * a + b * b));
  }

  /**
   * The three mirrors of the unit tests: (1, 1) in the Y axis, (2, 2) in the
   * vertical through (1, 1), and (1, 0) in the diagonal (1, 1).
   */
  lemma ReflectionExamples(axis: Vector2D, math: MathLib)
    requires Lawful(math) && axis == Vector2D(0.0, 1.0)
    ensures axis.Length(math) != 0.0 && ReflectionDefined(axis, math)
    ensures CreateReflection(axis, math).OfPoint(Point2D(1.0, 1.0)) == Point2D(-1.0, 1.0)
    ensures CreateReflectionAtPoint(axis, Point2D(1.0, 1.0), math).OfPoint(Point2D(2.0, 2.0)) == Point2D(0.0, 2.0)
  {
    ReflectionInYAxis(1.0, math, Point2D(1.0, 1.0));
    AtPointExample(axis, math);
  }

  /** Reflecting (2, 2) around (1, 1) reflects (1, 1) at the origin and moves it back. */
  lemma AtPointExample(axis: Vector2D, math: MathLib)
    requires ReflectionDefined(axis, math)
    requires CreateReflection(axis, math).OfPoint(Point2D(1.0, 1.0)) == Point2D(-1.0, 1.0)
    ensures CreateReflectionAtPoint(axis, Point2D(1.0, 1.0), math).OfPoint(Point2D(2.0, 2.0)) == Point2D(0.0, 2.0)
  {
    var origin := Point2D(1.0, 1.0);
    ReflectionAtPointFormula(axis, origin, Point2D(2.0, 2.0), math);
    assert Point2D(2.0, 2.0).Add(origin.Vector().Negate()) == origin;
  }

  /** The reflection around a point is the reflection of the point moved to the origin, moved back. */
  lemma ReflectionAtPointFormula(vector: Vector2D, origin: Point2D, p: Point2D, math: MathLib)
    requires ReflectionDefined(vector, math)
    ensures CreateReflectionAtPoint(vector, origin, math).OfPoint(p)
         == CreateReflection(vector, math).OfPoint(p.Add(origin.Vector().Negate())).Add(origin.Vector())
  {
    AtPointFormula(origin, CreateReflection(vector, math), p);
  }

  /** The mirror around a point is the mirror of the point moved to the origin, moved back. */
  lemma MirrorAtPointFormula(vector: Vector2D, origin: Point2D, p: Point2D, math: MathLib)
    requires vector.Length(math) != 0.0
    ensures CreateMirrorAtPoint(vector, origin, math).OfPoint(p)
         == CreateMirror(vector, math).OfPoint(p.Add(origin.Vector().Negate())).Add(origin.Vector())
  {
    AtPointFormula(origin, CreateMirror(vector, math), p);
  }

  /**
   * As written, the reflection around a point inherits the general branch of
   * `CreateReflection`: with axis (0, -1) through the origin, the point
   * (0, 1) on the axis goes to (0, -1), while the mirror keeps it.
   */
  lemma ReflectionAtPointMovesAxisPoint(axis: Vector2D, origin: Point2D, p: Point2D, math: MathLib)
    requires Lawful(math) && axis == Vector2D(0.0, -1.0) && origin == Point2D.Zero() && p == Point2D(0.0, 1.0)
    ensures ReflectionDefined(axis, math)
    ensures CreateReflectionAtPoint(axis, origin, math).OfPoint(p) == Point2D(0.0, -1.0)
    ensures axis.Length(math) != 0.0 && CreateMirrorAtPoint(axis, origin, math).OfPoint(p) == p
  {
    ReflectionMovesAxisPoint(math);
    ReflectionAtPointFormula(axis, origin, p, math);
    OriginShift(origin, p, Point2D(0.0, -1.0));
    MirrorAtPointKeepsAxisPoint(axis, origin, p, math);
  }

  lemma MirrorAtPointKeepsAxisPoint(axis: Vector2D, origin: Point2D, p: Point2D, math: MathLib)
    requires Lawful(math) && axis == Vector2D(0.0, -1.0) && origin == Point2D.Zero() && p == Point2D(0.0, 1.0)
    ensures axis.Length(math) != 0.0 && CreateMirrorAtPoint(axis, origin, math).OfPoint(p) == p
  {
    DownAxisIsUnit(math);
    MirrorAtPointFormula(axis, origin, p, math);
    OriginShift(origin, p, p);
    DownMirrorKeepsUp(axis, p);
  }

  lemma DownMirrorKeepsUp(axis: Vector2D, p: Point2D)
    requires axis == Vector2D(0.0, -1.0) && p == Point2D(0.0, 1.0)
    ensures MirrorFrame(axis).OfPoint(p) == p
  {
    OfPointComponents(MirrorFrame(axis), p);
    assert MirrorFrame(axis) == FromFrame(Point2D.Zero(), Vector2D(-1.0, 0.0), Vector2D(0.0, 1.0));
  }

  /** Moving by the zero origin and back changes nothing. */
  lemma OriginShift(origin: Point2D, p: Point2D, q: Point2D)
    requires origin == Point2D.Zero()
    ensures p.Add(origin.Vector().Negate()) == p && q.Add(origin.Vector()) == q
  {
    assert origin.Vector().Negate() == Vector2D.Zero();
  }

  lemma DownAxisIsUnit(math: MathLib)
    requires Lawful(math)
    ensures Vector2D(0.0, -1.0).Length(math) == 1.0
    ensures CreateMirror(Vector2D(0.0, -1.0), math) == MirrorFrame(Vector2D(0.0, -1.0))
  {
    AxisLength(1.0, math);
    assert Vector2D(0.0, -1.0).SquareLength() == Vector2D(0.0, 1.0).SquareLength();
    assert Vector2D(0.0, -1.0).Normalize(math) == Vector2D(0.0, -1.0);
  }
}
