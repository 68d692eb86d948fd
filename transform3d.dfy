/**
 * Transform3D: a spatial coordinate frame held as the sixteen entries of a 4x4
 * homogeneous matrix whose columns are the X, Y and Z bases and the origin.
 * As in the plane, every operation builds its result from matrix products.
 */
module Transforms3D {
  import opened RealMath
  import opened Results
  import opened Matrices
  import opened Primitives3D

  /**
   * The sixteen entries, row by row: (XX, YX, ZX, OriginX), (XY, YY, ZY, OriginY),
   * (XZ, YZ, ZZ, OriginZ) and the homogeneous row (XH, YH, ZH, OriginH).
   */
  datatype Transform3D = Transform3D(
    BasisXX: real, BasisYX: real, BasisZX: real, OriginX: real,
    BasisXY: real, BasisYY: real, BasisZY: real, OriginY: real,
    BasisXZ: real, BasisYZ: real, BasisZZ: real, OriginZ: real,
    BasisXH: real, BasisYH: real, BasisZH: real, OriginH: real)
  {
    function BasisX(): Vector3D { Vector3D(BasisXX, BasisXY, BasisXZ) }
    function BasisY(): Vector3D { Vector3D(BasisYX, BasisYY, BasisYZ) }
    function BasisZ(): Vector3D { Vector3D(BasisZX, BasisZY, BasisZZ) }
    function Origin(): Point3D { Point3D(OriginX, OriginY, OriginZ) }

    /** The homogeneous row is (0, 0, 0, 1): what every public way of building a frame produces. */
    predicate IsAffine()
    {
      BasisXH == 0.0 && BasisYH == 0.0 && BasisZH == 0.0 && OriginH == 1.0
    }

    /** The matrix whose columns are the three bases and the origin. */
    function Matrix(): (m: Mat)
      ensures m.Valid() && m.rows == 4 && m.cols == 4
    {
      Mat(4, 4, [[BasisXX, BasisYX, BasisZX, OriginX],
                 [BasisXY, BasisYY, BasisZY, OriginY],
                 [BasisXZ, BasisYZ, BasisZZ, OriginZ],
                 [BasisXH, BasisYH, BasisZH, OriginH]])
    }

    /** The first three entries of the matrix times the homogeneous column of the point. */
    function OfPoint(point: Point3D): Point3D
    {
      var result := MatrixProduct(Matrix(), point.Matrix());
      Point3D(result.cells[0][0], result.cells[1][0], result.cells[2][0])
    }

    /** As for a point (the column of a vector also ends in 1), then the origin taken off again. */
    function OfVector(vector: Vector3D): Vector3D
    {
      var result := MatrixProduct(Matrix(), vector.Matrix());
      Vector3D(result.cells[0][0] - OriginX, result.cells[1][0] - OriginY, result.cells[2][0] - OriginZ)
    }

    /** The frame of the matrix product `this * other`. */
    function Multiply(other: Transform3D): Transform3D
    {
      OfMatrix(MatrixProduct(Matrix(), other.Matrix()))
    }

    /** The frame of the inverse matrix; the source divides by a zero determinant otherwise. */
    function Inverse(): Transform3D
      requires Det(Matrix()) != 0.0
    {
      OfMatrix(Matrices.Inverse(Matrix()))
    }
  }

  /** The constructor from an origin and three basis vectors. */
  function FromFrame(origin: Point3D, basisX: Vector3D, basisY: Vector3D, basisZ: Vector3D): (t: Transform3D)
    ensures t.Origin() == origin && t.BasisX() == basisX && t.BasisY() == basisY && t.BasisZ() == basisZ
    ensures t.IsAffine()
  {
    Transform3D(basisX.X, basisY.X, basisZ.X, origin.X,
                basisX.Y, basisY.Y, basisZ.Y, origin.Y,
                basisX.Z, basisY.Z, basisZ.Z, origin.Z,
                0.0, 0.0, 0.0, 1.0)
  }

  /** The entries of a four-by-four matrix, read column by column into the frame. */
  function OfMatrix(matrix: Mat): (t: Transform3D)
    requires matrix.Valid() && matrix.rows == 4 && matrix.cols == 4
    ensures t.Matrix() == matrix
  {
    var c := matrix.cells;
    assert c == [c[0], c[1], c[2], c[3]];
    assert c[0] == [c[0][0], c[0][1], c[0][2], c[0][3]];
    assert c[1] == [c[1][0], c[1][1], c[1][2], c[1][3]];
    assert c[2] == [c[2][0], c[2][1], c[2][2], c[2][3]];
    assert c[3] == [c[3][0], c[3][1], c[3][2], c[3][3]];
    Transform3D(c[0][0], c[0][1], c[0][2], c[0][3],
                c[1][0], c[1][1], c[1][2], c[1][3],
                c[2][0], c[2][1], c[2][2], c[2][3],
                c[3][0], c[3][1], c[3][2], c[3][3])
  }

  /** The constructor from a matrix: it refuses any size other than four by four. */
  function FromMatrix(matrix: Mat): Result<Transform3D>
    requires matrix.Valid()
  {
    if matrix.rows != 4 || matrix.cols != 4 then Failure(Argument) else Success(OfMatrix(matrix))
  }

  function Identity(): Transform3D
  {
    FromFrame(Point3D.Zero(), Vector3D.BasisX(), Vector3D.BasisY(), Vector3D.BasisZ())
  }

  function CreateTranslation(vector: Vector3D): Transform3D
  {
    FromFrame(Point3D.Zero().Add(vector), Vector3D.BasisX(), Vector3D.BasisY(), Vector3D.BasisZ())
  }

  function CreateScale(x: real, y: real, z: real): Transform3D
  {
    FromFrame(Point3D.Zero(), Vector3D.Times(x, Vector3D.BasisX()), Vector3D.Times(y, Vector3D.BasisY()),
              Vector3D.Times(z, Vector3D.BasisZ()))
  }

  /** Move the centre to the origin, scale, move back. */
  function CreateScaleAtPoint(x: real, y: real, z: real, origin: Point3D): Transform3D
  {
    var transA := CreateTranslation(origin.Vector());
    var transB := CreateScale(x, y, z);
    var transC := CreateTranslation(origin.Vector().Negate());
    transA.Multiply(transB).Multiply(transC)
  }

  // ---------------------------------------------------------------- matrix round trip

  /** The matrix constructor accepts exactly the four-by-four matrices, and reading a frame's matrix back gives the frame. */
  lemma FromMatrixRoundTrip(t: Transform3D, matrix: Mat)
    requires matrix.Valid()
    ensures FromMatrix(matrix).Success? <==> matrix.rows == 4 && matrix.cols == 4
    ensures FromMatrix(matrix).Success? ==> FromMatrix(matrix).value.Matrix() == matrix
    ensures FromMatrix(t.Matrix()) == Success(t)
  {
  }

  // ---------------------------------------------------------------- applying a frame

  /** A point maps to the origin plus its coordinates along the three bases, coordinate by coordinate. */
  lemma OfPointComponents(t: Transform3D, p: Point3D)
    ensures t.OfPoint(p).X == t.OriginX + p.X * t.BasisXX + p.Y * t.BasisYX + p.Z * t.BasisZX
    ensures t.OfPoint(p).Y == t.OriginY + p.X * t.BasisXY + p.Y * t.BasisYY + p.Z * t.BasisZY
    ensures t.OfPoint(p).Z == t.OriginZ + p.X * t.BasisXZ + p.Y * t.BasisYZ + p.Z * t.BasisZZ
  {
    ProductCellOfFour(t.Matrix(), p.Matrix(), 0, 0);
    ProductCellOfFour(t.Matrix(), p.Matrix(), 1, 0);
    ProductCellOfFour(t.Matrix(), p.Matrix(), 2, 0);
  }

  /** The same as points and vectors: the origin plus the scaled bases. */
  lemma OfPointFormula(t: Transform3D, p: Point3D)
    ensures t.OfPoint(p) == t.Origin().Add(t.BasisX().Scaled(p.X)).Add(t.BasisY().Scaled(p.Y)).Add(t.BasisZ().Scaled(p.Z))
  {
    OfPointComponents(t, p);
  }

  /** A vector maps to its coordinates along the three bases: the origin plays no part. */
  lemma OfVectorFormula(t: Transform3D, v: Vector3D)
    ensures t.OfVector(v) == t.BasisX().Scaled(v.X).Plus(t.BasisY().Scaled(v.Y)).Plus(t.BasisZ().Scaled(v.Z))
  {
    ProductCellOfFour(t.Matrix(), v.Matrix(), 0, 0);
    ProductCellOfFour(t.Matrix(), v.Matrix(), 1, 0);
    ProductCellOfFour(t.Matrix(), v.Matrix(), 2, 0);
  }

  // ---------------------------------------------------------------- composition

  /** Multiplying by a frame whose homogeneous row is (0, 0, 0, 1) applies that frame first. */
  lemma MultiplyComposes(a: Transform3D, b: Transform3D, p: Point3D)
    requires b.IsAffine()
    ensures a.Multiply(b).OfPoint(p) == a.OfPoint(b.OfPoint(p))
  {
    ComposesOfX(a, b, p);
    ComposesOfY(a, b, p);
    ComposesOfZ(a, b, p);
  }

  lemma ComposesOfX(a: Transform3D, b: Transform3D, p: Point3D)
    requires b.IsAffine()
    ensures a.Multiply(b).OfPoint(p).X == a.OfPoint(b.OfPoint(p)).X
  {
    ProductRowX(a, b);
    OfPointX(a.Multiply(b), p);
    OfPointComponents(b, p);
    OfPointX(a, b.OfPoint(p));
    ComposeRow(a.BasisXX, a.BasisYX, a.BasisZX, a.OriginX, b, p);
  }

  lemma ComposesOfY(a: Transform3D, b: Transform3D, p: Point3D)
    requires b.IsAffine()
    ensures a.Multiply(b).OfPoint(p).Y == a.OfPoint(b.OfPoint(p)).Y
  {
    ProductRowY(a, b);
    OfPointY(a.Multiply(b), p);
    OfPointComponents(b, p);
    OfPointY(a, b.OfPoint(p));
    ComposeRow(a.BasisXY, a.BasisYY, a.BasisZY, a.OriginY, b, p);
  }

  lemma ComposesOfZ(a: Transform3D, b: Transform3D, p: Point3D)
    requires b.IsAffine()
    ensures a.Multiply(b).OfPoint(p).Z == a.OfPoint(b.OfPoint(p)).Z
  {
    ProductRowZ(a, b);
    OfPointZ(a.Multiply(b), p);
    OfPointComponents(b, p);
    OfPointZ(a, b.OfPoint(p));
    ComposeRow(a.BasisXZ, a.BasisYZ, a.BasisZZ, a.OriginZ, b, p);
  }

  lemma OfPointX(t: Transform3D, p: Point3D)
    ensures t.OfPoint(p).X == t.OriginX + p.X * t.BasisXX + p.Y * t.BasisYX + p.Z * t.BasisZX
  {
    ProductCellOfFour(t.Matrix(), p.Matrix(), 0, 0);
  }

  lemma OfPointY(t: Transform3D, p: Point3D)
    ensures t.OfPoint(p).Y == t.OriginY + p.X * t.BasisXY + p.Y * t.BasisYY + p.Z * t.BasisZY
  {
    ProductCellOfFour(t.Matrix(), p.Matrix(), 1, 0);
  }

  lemma OfPointZ(t: Transform3D, p: Point3D)
    ensures t.OfPoint(p).Z == t.OriginZ + p.X * t.BasisXZ + p.Y * t.BasisYZ + p.Z * t.BasisZZ
  {
    ProductCellOfFour(t.Matrix(), p.Matrix(), 2, 0);
  }

  /** Row X of a product of frames: that row of the left frame against each column of the right. */
  lemma ProductRowX(a: Transform3D, b: Transform3D)
    ensures a.Multiply(b).BasisXX == a.BasisXX * b.BasisXX + a.BasisYX * b.BasisXY + a.BasisZX * b.BasisXZ + a.OriginX * b.BasisXH
    ensures a.Multiply(b).BasisYX == a.BasisXX * b.BasisYX + a.BasisYX * b.BasisYY + a.BasisZX * b.BasisYZ + a.OriginX * b.BasisYH
    ensures a.Multiply(b).BasisZX == a.BasisXX * b.BasisZX + a.BasisYX * b.BasisZY + a.BasisZX * b.BasisZZ + a.OriginX * b.BasisZH
    ensures a.Multiply(b).OriginX == a.BasisXX * b.OriginX + a.BasisYX * b.OriginY + a.BasisZX * b.OriginZ + a.OriginX * b.OriginH
  {
    ProductCellOfFour(a.Matrix(), b.Matrix(), 0, 0);
    ProductCellOfFour(a.Matrix(), b.Matrix(), 0, 1);
    ProductCellOfFour(a.Matrix(), b.Matrix(), 0, 2);
    ProductCellOfFour(a.Matrix(), b.Matrix(), 0, 3);
  }

  /** Row Y of a product of frames: that row of the left frame against each column of the right. */
  lemma ProductRowY(a: Transform3D, b: Transform3D)
    ensures a.Multiply(b).BasisXY == a.BasisXY * b.BasisXX + a.BasisYY * b.BasisXY + a.BasisZY * b.BasisXZ + a.OriginY * b.BasisXH
    ensures a.Multiply(b).BasisYY == a.BasisXY * b.BasisYX + a.BasisYY * b.BasisYY + a.BasisZY * b.BasisYZ + a.OriginY * b.BasisYH
    ensures a.Multiply(b).BasisZY == a.BasisXY * b.BasisZX + a.BasisYY * b.BasisZY + a.BasisZY * b.BasisZZ + a.OriginY * b.BasisZH
    ensures a.Multiply(b).OriginY == a.BasisXY * b.OriginX + a.BasisYY * b.OriginY + a.BasisZY * b.OriginZ + a.OriginY * b.OriginH
  {
    ProductCellOfFour(a.Matrix(), b.Matrix(), 1, 0);
    ProductCellOfFour(a.Matrix(), b.Matrix(), 1, 1);
    ProductCellOfFour(a.Matrix(), b.Matrix(), 1, 2);
    ProductCellOfFour(a.Matrix(), b.Matrix(), 1, 3);
  }

  /** Row Z of a product of frames: that row of the left frame against each column of the right. */
  lemma ProductRowZ(a: Transform3D, b: Transform3D)
    ensures a.Multiply(b).BasisXZ == a.BasisXZ * b.BasisXX + a.BasisYZ * b.BasisXY + a.BasisZZ * b.BasisXZ + a.OriginZ * b.BasisXH
    ensures a.Multiply(b).BasisYZ == a.BasisXZ * b.BasisYX + a.BasisYZ * b.BasisYY + a.BasisZZ * b.BasisYZ + a.OriginZ * b.BasisYH
    ensures a.Multiply(b).BasisZZ == a.BasisXZ * b.BasisZX + a.BasisYZ * b.BasisZY + a.BasisZZ * b.BasisZZ + a.OriginZ * b.BasisZH
    ensures a.Multiply(b).OriginZ == a.BasisXZ * b.OriginX + a.BasisYZ * b.OriginY + a.BasisZZ * b.OriginZ + a.OriginZ * b.OriginH
  {
    ProductCellOfFour(a.Matrix(), b.Matrix(), 2, 0);
    ProductCellOfFour(a.Matrix(), b.Matrix(), 2, 1);
    ProductCellOfFour(a.Matrix(), b.Matrix(), 2, 2);
    ProductCellOfFour(a.Matrix(), b.Matrix(), 2, 3);
  }

  /** Row H of a product of frames: that row of the left frame against each column of the right. */
  lemma ProductRowH(a: Transform3D, b: Transform3D)
    ensures a.Multiply(b).BasisXH == a.BasisXH * b.BasisXX + a.BasisYH * b.BasisXY + a.BasisZH * b.BasisXZ + a.OriginH * b.BasisXH
    ensures a.Multiply(b).BasisYH == a.BasisXH * b.BasisYX + a.BasisYH * b.BasisYY + a.BasisZH * b.BasisYZ + a.OriginH * b.BasisYH
    ensures a.Multiply(b).BasisZH == a.BasisXH * b.BasisZX + a.BasisYH * b.BasisZY + a.BasisZH * b.BasisZZ + a.OriginH * b.BasisZH
    ensures a.Multiply(b).OriginH == a.BasisXH * b.OriginX + a.BasisYH * b.OriginY + a.BasisZH * b.OriginZ + a.OriginH * b.OriginH
  {
    ProductCellOfFour(a.Matrix(), b.Matrix(), 3, 0);
    ProductCellOfFour(a.Matrix(), b.Matrix(), 3, 1);
    ProductCellOfFour(a.Matrix(), b.Matrix(), 3, 2);
    ProductCellOfFour(a.Matrix(), b.Matrix(), 3, 3);
  }

  /** One row of the product, applied to (x, y, z, 1), is that row applied to the image of (x, y, z). */
  lemma ComposeRow(r0: real, r1: real, r2: real, r3: real, b: Transform3D, p: Point3D)
    requires b.IsAffine()
    ensures (r0 * b.OriginX + r1 * b.OriginY + r2 * b.OriginZ + r3 * b.OriginH)
          + p.X * (r0 * b.BasisXX + r1 * b.BasisXY + r2 * b.BasisXZ + r3 * b.BasisXH)
          + p.Y * (r0 * b.BasisYX + r1 * b.BasisYY + r2 * b.BasisYZ + r3 * b.BasisYH)
          + p.Z * (r0 * b.BasisZX + r1 * b.BasisZY + r2 * b.BasisZZ + r3 * b.BasisZH)
         == r3 + (b.OriginX + p.X * b.BasisXX + p.Y * b.BasisYX + p.Z * b.BasisZX) * r0
               + (b.OriginY + p.X * b.BasisXY + p.Y * b.BasisYY + p.Z * b.BasisZY) * r1
               + (b.OriginZ + p.X * b.BasisXZ + p.Y * b.BasisYZ + p.Z * b.BasisZZ) * r2
  {
  }

  /** The product of two frames with homogeneous row (0, 0, 0, 1) has that row too. */
  lemma MultiplyAffine(a: Transform3D, b: Transform3D)
    requires a.IsAffine() && b.IsAffine()
    ensures a.Multiply(b).IsAffine()
  {
    ProductCellOfFour(a.Matrix(), b.Matrix(), 3, 0);
    ProductCellOfFour(a.Matrix(), b.Matrix(), 3, 1);
    ProductCellOfFour(a.Matrix(), b.Matrix(), 3, 2);
    ProductCellOfFour(a.Matrix(), b.Matrix(), 3, 3);
  }

  // ---------------------------------------------------------------- the named frames

  lemma IdentityFixes(p: Point3D, v: Vector3D)
    ensures Identity().OfPoint(p) == p && Identity().OfVector(v) == v
  {
    OfPointComponents(Identity(), p);
    OfVectorFormula(Identity(), v);
  }

  /** A translation moves every point by the vector and leaves vectors alone. */
  lemma TranslationMoves(vector: Vector3D, p: Point3D, v: Vector3D)
    ensures CreateTranslation(vector).OfPoint(p) == p.Add(vector)
    ensures CreateTranslation(vector).OfVector(v) == v
  {
    OfPointComponents(CreateTranslation(vector), p);
    OfVectorFormula(CreateTranslation(vector), v);
  }

  /** A scale multiplies each coordinate by its own factor. */
  lemma ScaleMultiplies(x: real, y: real, z: real, p: Point3D)
    ensures CreateScale(x, y, z).OfPoint(p) == Point3D(x * p.X, y * p.Y, z * p.Z)
  {
    OfPointComponents(CreateScale(x, y, z), p);
  }

  /**
   * The frames built "at a point" (translate the point to the origin, apply
   * `b`, translate back) map `p` to the image of `p - origin` moved back by the
   * origin.
   */
  lemma AtPointFormula(origin: Point3D, b: Transform3D, p: Point3D)
    requires b.IsAffine()
    ensures CreateTranslation(origin.Vector()).Multiply(b).Multiply(CreateTranslation(origin.Vector().Negate())).OfPoint(p)
         == b.OfPoint(p.Add(origin.Vector().Negate())).Add(origin.Vector())
  {
    var transA := CreateTranslation(origin.Vector());
    var transC := CreateTranslation(origin.Vector().Negate());
    MultiplyComposes(transA.Multiply(b), transC, p);
    MultiplyComposes(transA, b, transC.OfPoint(p));
    TranslationMoves(origin.Vector().Negate(), p, origin.Vector());
    TranslationMoves(origin.Vector(), b.OfPoint(transC.OfPoint(p)), origin.Vector());
  }

  /** Scaling at a point moves each coordinate away from the centre by its factor, and keeps the centre. */
  lemma ScaleAtPointMultiplies(x: real, y: real, z: real, origin: Point3D, p: Point3D)
    ensures CreateScaleAtPoint(x, y, z, origin).OfPoint(p)
         == Point3D(x * (p.X - origin.X) + origin.X, y * (p.Y - origin.Y) + origin.Y, z * (p.Z - origin.Z) + origin.Z)
    ensures CreateScaleAtPoint(x, y, z, origin).OfPoint(origin) == origin
  {
    AtPointFormula(origin, CreateScale(x, y, z), p);
    ScaleMultiplies(x, y, z, p.Add(origin.Vector().Negate()));
    AtPointFormula(origin, CreateScale(x, y, z), origin);
    ScaleMultiplies(x, y, z, origin.Add(origin.Vector().Negate()));
  }

  /**
   * Scaling (1, 1, 1) by (0.1, 0.5, 0.2) at the origin, and (1, 1, 1) and
   * (2, 2, 2) by the same factors at (1, 1, 1).
   */
  lemma ScaleExamples()
    ensures CreateScale(0.1, 0.5, 0.2).OfPoint(Point3D(1.0, 1.0, 1.0)) == Point3D(0.1, 0.5, 0.2)
    ensures CreateScaleAtPoint(0.1, 0.5, 0.2, Point3D(1.0, 1.0, 1.0)).OfPoint(Point3D(1.0, 1.0, 1.0)) == Point3D(1.0, 1.0, 1.0)
    ensures CreateScaleAtPoint(0.1, 0.5, 0.2, Point3D(1.0, 1.0, 1.0)).OfPoint(Point3D(2.0, 2.0, 2.0)) == Point3D(1.1, 1.5, 1.2)
  {
    ScaleMultiplies(0.1, 0.5, 0.2, Point3D(1.0, 1.0, 1.0));
    ScaleAtPointMultiplies(0.1, 0.5, 0.2, Point3D(1.0, 1.0, 1.0), Point3D(2.0, 2.0, 2.0));
  }

  // ---------------------------------------------------------------- inverse

  /** The determinant of the basis block: the volume the three bases span. */
  function BasisDet(t: Transform3D): real
  {
    Det3(t.BasisXX, t.BasisYX, t.BasisZX, t.BasisXY, t.BasisYY, t.BasisZY, t.BasisXZ, t.BasisYZ, t.BasisZZ)
  }

  /**
   * The frame that undoes `t` when `s` is the reciprocal of the basis
   * determinant: the transposed cofactors of the basis scaled by `s`, with the
   * origin carried back through them and negated.
   */
  function Reciprocal(t: Transform3D, s: real): Transform3D
  {
    var a := t.BasisXX; var b := t.BasisYX; var c := t.BasisZX;
    var d := t.BasisXY; var e := t.BasisYY; var f := t.BasisZY;
    var g := t.BasisXZ; var h := t.BasisYZ; var i := t.BasisZZ;
    var c00 := e * i - f * h; var c01 := f * g - d * i; var c02 := d * h - e * g;
    var c10 := c * h - b * i; var c11 := a * i - c * g; var c12 := b * g - a * h;
    var c20 := b * f - c * e; var c21 := c * d - a * f; var c22 := a * e - b * d;
    Transform3D(s * c00, s * c10, s * c20, -(s * (c00 * t.OriginX + c10 * t.OriginY + c20 * t.OriginZ)),
                s * c01, s * c11, s * c21, -(s * (c01 * t.OriginX + c11 * t.OriginY + c21 * t.OriginZ)),
                s * c02, s * c12, s * c22, -(s * (c02 * t.OriginX + c12 * t.OriginY + c22 * t.OriginZ)),
                0.0, 0.0, 0.0, 1.0)
  }

  /**
   * The inverse of an affine frame with a non-zero determinant is affine and
   * undoes the frame on either side.
   */
  lemma InverseUndoes(t: Transform3D, p: Point3D)
    requires t.IsAffine() && Det(t.Matrix()) != 0.0
    ensures t.Inverse().IsAffine()
    ensures t.Inverse().OfPoint(t.OfPoint(p)) == p
    ensures t.OfPoint(t.Inverse().OfPoint(p)) == p
  {
    InverseIsReciprocal(t);
    ReciprocalUndoes(t, 1.0 / BasisDet(t), p);
  }

  /** An affine frame's four-by-four determinant is that of its basis block. */
  lemma AffineDet(t: Transform3D)
    requires t.IsAffine()
    ensures Det(t.Matrix()) == BasisDet(t)
  {
    var m := t.Matrix();
    ExpandFour(m);
    AffineMinor(m, 0, 0);
    AffineMinor(m, 0, 1);
    AffineMinor(m, 0, 2);
    AffineMinorOfOrigin(m, 0);
    DetTermOf(m, 0, t.BasisXX, t.BasisYY * t.BasisZZ - t.BasisZY * t.BasisYZ);
    DetTermOf(m, 1, t.BasisYX, t.BasisXY * t.BasisZZ - t.BasisZY * t.BasisXZ);
    DetTermOf(m, 2, t.BasisZX, t.BasisXY * t.BasisYZ - t.BasisYY * t.BasisXZ);
    DetTermOf(m, 3, t.OriginX, 0.0);
    ClosedFormOfThree(t.BasisXX, t.BasisYX, t.BasisZX, t.BasisXY, t.BasisYY, t.BasisZY, t.BasisXZ, t.BasisYZ, t.BasisZZ);
  }

  lemma ExpandFour(m: Mat)
    requires m.Valid() && m.rows == 4 && m.cols == 4
    ensures Det(m) == DetTerm(m, 0) + DetTerm(m, 1) + DetTerm(m, 2) + DetTerm(m, 3)
  {
    assert DetSum(m, 1) == DetTerm(m, 0);
    assert DetSum(m, 2) == DetSum(m, 1) + DetTerm(m, 1);
    assert DetSum(m, 3) == DetSum(m, 2) + DetTerm(m, 2);
    assert DetSum(m, 4) == DetSum(m, 3) + DetTerm(m, 3);
  }

  /** A four-by-four matrix whose last row is (0, 0, 0, 1). */
  predicate AffineRows(m: Mat)
  {
    m.Valid() && m.rows == 4 && m.cols == 4 && m.cells[3] == [0.0, 0.0, 0.0, 1.0]
  }

  /** Deleting a row and a column of the basis block leaves (0, 0, 1) at the bottom: a two-by-two minor. */
  lemma AffineMinor(m: Mat, r: nat, c: nat)
    requires AffineRows(m) && r < 3 && c < 3
    ensures Det(Cofactor(m, r, c))
         == m.cells[Skip(0, r)][Skip(0, c)] * m.cells[Skip(1, r)][Skip(1, c)]
          - m.cells[Skip(0, r)][Skip(1, c)] * m.cells[Skip(1, r)][Skip(0, c)]
  {
    var k := Cofactor(m, r, c);
    DetThreeByThree(k);
    assert Skip(2, r) == 3 && Skip(2, c) == 3;
    assert k.cells[2][0] == 0.0 && k.cells[2][1] == 0.0 && k.cells[2][2] == 1.0;
  }

  /** Deleting the origin column keeps the zero part of the last row: the minor vanishes. */
  lemma AffineMinorOfOrigin(m: Mat, r: nat)
    requires AffineRows(m) && r < 3
    ensures Det(Cofactor(m, r, 3)) == 0.0
  {
    var k := Cofactor(m, r, 3);
    DetThreeByThree(k);
    assert Skip(2, r) == 3;
    assert k.cells[2][0] == 0.0 && k.cells[2][1] == 0.0 && k.cells[2][2] == 0.0;
  }

  /** Deleting the last row leaves the first three rows without column `c`. */
  lemma AffineMinorOfLastRow(m: Mat, c: nat)
    requires AffineRows(m) && c < 4
    ensures Det(Cofactor(m, 3, c))
         == Det3(m.cells[0][Skip(0, c)], m.cells[0][Skip(1, c)], m.cells[0][Skip(2, c)],
                 m.cells[1][Skip(0, c)], m.cells[1][Skip(1, c)], m.cells[1][Skip(2, c)],
                 m.cells[2][Skip(0, c)], m.cells[2][Skip(1, c)], m.cells[2][Skip(2, c)])
  {
    DetThreeByThree(Cofactor(m, 3, c));
  }

  /** Entry (k, j) of the inverse of an affine frame's matrix, for a basis entry. */
  lemma InverseBasisCell(t: Transform3D, k: nat, j: nat)
    requires t.IsAffine() && Det(t.Matrix()) != 0.0 && k < 3 && j < 3
    ensures BasisDet(t) != 0.0
    ensures var m := t.Matrix();
      Inverse(m).cells[k][j]
      == (1.0 / BasisDet(t)) * Signed(k + j, m.cells[Skip(0, j)][Skip(0, k)] * m.cells[Skip(1, j)][Skip(1, k)]
                                            - m.cells[Skip(0, j)][Skip(1, k)] * m.cells[Skip(1, j)][Skip(0, k)])
  {
    var m := t.Matrix();
    AffineDet(t);
    InverseCell(m, k, j);
    AffineMinor(m, j, k);
    DivScale(Signed(k + j, Det(Cofactor(m, j, k))), Det(m));
  }

  /** Entry (k, 3) of the inverse of an affine frame's matrix: its origin. */
  lemma InverseOriginCell(t: Transform3D, k: nat)
    requires t.IsAffine() && Det(t.Matrix()) != 0.0 && k < 3
    ensures BasisDet(t) != 0.0
    ensures var m := t.Matrix();
      Inverse(m).cells[k][3]
      == (1.0 / BasisDet(t)) * Signed(k + 3, Det3(m.cells[0][Skip(0, k)], m.cells[0][Skip(1, k)], m.cells[0][3],
                                                m.cells[1][Skip(0, k)], m.cells[1][Skip(1, k)], m.cells[1][3],
                                                m.cells[2][Skip(0, k)], m.cells[2][Skip(1, k)], m.cells[2][3]))
  {
    var m := t.Matrix();
    AffineDet(t);
    InverseCell(m, k, 3);
    AffineMinorOfLastRow(m, k);
    assert Skip(2, k) == 3;
    DivScale(Signed(k + 3, Det(Cofactor(m, 3, k))), Det(m));
  }

  /** The last row of the inverse of an affine frame's matrix is (0, 0, 0, 1) again. */
  lemma InverseLastRow(t: Transform3D, j: nat)
    requires t.IsAffine() && Det(t.Matrix()) != 0.0 && j < 4
    ensures Inverse(t.Matrix()).cells[3][j] == if j == 3 then 1.0 else 0.0
  {
    var m := t.Matrix();
    AffineDet(t);
    InverseCell(m, 3, j);
    if j == 3 {
      AffineMinorOfLastRow(m, 3);
      DivSelf(Det(m));
    } else {
      AffineMinorOfOrigin(m, j);
    }
  }

  /** The X, Y and Z rows of the inverse, entry by entry. */
  lemma InverseRowX(t: Transform3D)
    requires t.IsAffine() && Det(t.Matrix()) != 0.0
    ensures BasisDet(t) != 0.0
    ensures var u := t.Inverse(); var r := Reciprocal(t, 1.0 / BasisDet(t));
      u.BasisXX == r.BasisXX && u.BasisYX == r.BasisYX && u.BasisZX == r.BasisZX && u.OriginX == r.OriginX
  {
    InverseBasisCell(t, 0, 0);
    InverseBasisCell(t, 0, 1);
    InverseBasisCell(t, 0, 2);
    InverseOriginCell(t, 0);
  }

  lemma InverseRowY(t: Transform3D)
    requires t.IsAffine() && Det(t.Matrix()) != 0.0
    ensures BasisDet(t) != 0.0
    ensures var u := t.Inverse(); var r := Reciprocal(t, 1.0 / BasisDet(t));
      u.BasisXY == r.BasisXY && u.BasisYY == r.BasisYY && u.BasisZY == r.BasisZY && u.OriginY == r.OriginY
  {
    InverseBasisCell(t, 1, 0);
    InverseBasisCell(t, 1, 1);
    InverseBasisCell(t, 1, 2);
    InverseOriginCell(t, 1);
  }

  lemma InverseRowZ(t: Transform3D)
    requires t.IsAffine() && Det(t.Matrix()) != 0.0
    ensures BasisDet(t) != 0.0
    ensures var u := t.Inverse(); var r := Reciprocal(t, 1.0 / BasisDet(t));
      u.BasisXZ == r.BasisXZ && u.BasisYZ == r.BasisYZ && u.BasisZZ == r.BasisZZ && u.OriginZ == r.OriginZ
  {
    InverseBasisCell(t, 2, 0);
    InverseBasisCell(t, 2, 1);
    InverseBasisCell(t, 2, 2);
    InverseOriginCell(t, 2);
  }

  /** The inverse of an affine frame's matrix is the reciprocal frame of its basis determinant. */
  lemma InverseIsReciprocal(t: Transform3D)
    requires t.IsAffine() && Det(t.Matrix()) != 0.0
    ensures BasisDet(t) != 0.0 && (1.0 / BasisDet(t)) * BasisDet(t) == 1.0
    ensures t.Inverse() == Reciprocal(t, 1.0 / BasisDet(t))
  {
    AffineDet(t);
    DivMul(1.0, BasisDet(t));
    InverseRowX(t);
    InverseRowY(t);
    InverseRowZ(t);
    InverseLastRow(t, 0);
    InverseLastRow(t, 1);
    InverseLastRow(t, 2);
    InverseLastRow(t, 3);
  }

  /** Given `s` times the basis determinant is one, the reciprocal frame undoes `t` on either side. */
  lemma ReciprocalUndoes(t: Transform3D, s: real, p: Point3D)
    requires s * BasisDet(t) == 1.0
    ensures Reciprocal(t, s).OfPoint(t.OfPoint(p)) == p
    ensures t.OfPoint(Reciprocal(t, s).OfPoint(p)) == p
  {
    ReciprocalAfter(t, s, p);
    ReciprocalBefore(t, s, p);
  }

  /** Applied after `t`: the frame's image is one-to-one, and the reciprocal frame maps that image back. */
  lemma ReciprocalAfter(t: Transform3D, s: real, p: Point3D)
    requires s * BasisDet(t) == 1.0
    ensures Reciprocal(t, s).OfPoint(t.OfPoint(p)) == p
  {
    ReciprocalBefore(t, s, t.OfPoint(p));
    OfPointInjective(t, Reciprocal(t, s).OfPoint(t.OfPoint(p)), p);
  }

  /** A frame whose bases span a non-zero volume sends different points to different points. */
  lemma OfPointInjective(t: Transform3D, u: Point3D, v: Point3D)
    requires BasisDet(t) != 0.0
    ensures t.OfPoint(u) == t.OfPoint(v) <==> u == v
  {
    if t.OfPoint(u) == t.OfPoint(v) {
      OfPointComponents(t, u);
      OfPointComponents(t, v);
      var (dx, dy, dz) := (u.X - v.X, u.Y - v.Y, u.Z - v.Z);
      AdjugateAfter(t.BasisXX, t.BasisYX, t.BasisZX, t.BasisXY, t.BasisYY, t.BasisZY, t.BasisXZ, t.BasisYZ, t.BasisZZ,
                    dx, dy, dz, 0.0, 0.0, 0.0);
      ZeroFactor(BasisDet(t), dx);
      ZeroFactor(BasisDet(t), dy);
      ZeroFactor(BasisDet(t), dz);
    }
  }

  /** Applied before `t`: each coordinate comes back through the transposed cofactors. */
  lemma ReciprocalBefore(t: Transform3D, s: real, p: Point3D)
    requires s * BasisDet(t) == 1.0
    ensures t.OfPoint(Reciprocal(t, s).OfPoint(p)) == p
  {
    var r := Reciprocal(t, s);
    var w := r.OfPoint(p);
    OfPointComponents(r, p);
    OfPointComponents(t, w);
    UndoBefore(t.BasisXX, t.BasisYX, t.BasisZX, t.BasisXY, t.BasisYY, t.BasisZY, t.BasisXZ, t.BasisYZ, t.BasisZZ,
               t.OriginX, t.OriginY, t.OriginZ, s, p.X, p.Y, p.Z, w.X, w.Y, w.Z);
  }

  /** The transposed cofactors times the basis times a vector: the determinant times the vector. */
  lemma AdjugateAfter(a: real, b: real, c: real, d: real, e: real, f: real, g: real, h: real, i: real,
                      x: real, y: real, z: real, dx: real, dy: real, dz: real)
    requires dx == x * a + y * b + z * c && dy == x * d + y * e + z * f && dz == x * g + y * h + z * i
    ensures (e * i - f * h) * dx + (c * h - b * i) * dy + (b * f - c * e) * dz == Det3(a, b, c, d, e, f, g, h, i) * x
    ensures (f * g - d * i) * dx + (a * i - c * g) * dy + (c * d - a * f) * dz == Det3(a, b, c, d, e, f, g, h, i) * y
    ensures (d * h - e * g) * dx + (b * g - a * h) * dy + (a * e - b * d) * dz == Det3(a, b, c, d, e, f, g, h, i) * z
  {
  }

  /** The frame brings back the image of (x, y, z) under the reciprocal frame. */
  lemma UndoBefore(a: real, b: real, c: real, d: real, e: real, f: real, g: real, h: real, i: real,
               o0: real, o1: real, o2: real, s: real, x: real, y: real, z: real, wx: real, wy: real, wz: real)
    requires s * Det3(a, b, c, d, e, f, g, h, i) == 1.0
    requires wx == -(s * ((e * i - f * h) * o0 + (c * h - b * i) * o1 + (b * f - c * e) * o2))
                   + x * (s * (e * i - f * h)) + y * (s * (c * h - b * i)) + z * (s * (b * f - c * e))
    requires wy == -(s * ((f * g - d * i) * o0 + (a * i - c * g) * o1 + (c * d - a * f) * o2))
                   + x * (s * (f * g - d * i)) + y * (s * (a * i - c * g)) + z * (s * (c * d - a * f))
    requires wz == -(s * ((d * h - e * g) * o0 + (b * g - a * h) * o1 + (a * e - b * d) * o2))
                   + x * (s * (d * h - e * g)) + y * (s * (b * g - a * h)) + z * (s * (a * e - b * d))
    ensures o0 + wx * a + wy * b + wz * c == x
    ensures o1 + wx * d + wy * e + wz * f == y
    ensures o2 + wx * g + wy * h + wz * i == z
  {
    var (dx, dy, dz) := (x - o0, y - o1, z - o2);
    var ux := (e * i - f * h) * dx + (c * h - b * i) * dy + (b * f - c * e) * dz;
    var uy := (f * g - d * i) * dx + (a * i - c * g) * dy + (c * d - a * f) * dz;
    var uz := (d * h - e * g) * dx + (b * g - a * h) * dy + (a * e - b * d) * dz;
    ScaledRow(s, e * i - f * h, c * h - b * i, b * f - c * e, o0, o1, o2, x, y, z, wx);
    ScaledRow(s, f * g - d * i, a * i - c * g, c * d - a * f, o0, o1, o2, x, y, z, wy);
    ScaledRow(s, d * h - e * g, b * g - a * h, a * e - b * d, o0, o1, o2, x, y, z, wz);
    BeforeBack(a, b, c, d, e, f, g, h, i, o0, o1, o2, s, x, y, z, dx, dy, dz, ux, uy, uz, wx, wy, wz);
  }

  /** The offsets `w` are `s` times the transposed cofactors applied to (x, y, z) less the origin. */
  lemma BeforeBack(a: real, b: real, c: real, d: real, e: real, f: real, g: real, h: real, i: real,
                   o0: real, o1: real, o2: real, s: real, x: real, y: real, z: real, dx: real, dy: real, dz: real,
                   ux: real, uy: real, uz: real, wx: real, wy: real, wz: real)
    requires s * Det3(a, b, c, d, e, f, g, h, i) == 1.0
    requires dx == x - o0 && dy == y - o1 && dz == z - o2
    requires ux == (e * i - f * h) * dx + (c * h - b * i) * dy + (b * f - c * e) * dz
    requires uy == (f * g - d * i) * dx + (a * i - c * g) * dy + (c * d - a * f) * dz
    requires uz == (d * h - e * g) * dx + (b * g - a * h) * dy + (a * e - b * d) * dz
    requires wx == s * ux && wy == s * uy && wz == s * uz
    ensures o0 + wx * a + wy * b + wz * c == x
    ensures o1 + wx * d + wy * e + wz * f == y
    ensures o2 + wx * g + wy * h + wz * i == z
  {
    AdjugateBefore(a, b, c, d, e, f, g, h, i, dx, dy, dz, ux, uy, uz);
    BackThroughBasis(s, Det3(a, b, c, d, e, f, g, h, i), o0, a, b, c, ux, uy, uz, wx, wy, wz, dx, x);
    BackThroughBasis(s, Det3(a, b, c, d, e, f, g, h, i), o1, d, e, f, ux, uy, uz, wx, wy, wz, dy, y);
    BackThroughBasis(s, Det3(a, b, c, d, e, f, g, h, i), o2, g, h, i, ux, uy, uz, wx, wy, wz, dz, z);
  }

  /** The basis times the transposed cofactors times a vector: the determinant times the vector. */
  lemma AdjugateBefore(a: real, b: real, c: real, d: real, e: real, f: real, g: real, h: real, i: real,
                       x: real, y: real, z: real, ux: real, uy: real, uz: real)
    requires ux == (e * i - f * h) * x + (c * h - b * i) * y + (b * f - c * e) * z
    requires uy == (f * g - d * i) * x + (a * i - c * g) * y + (c * d - a * f) * z
    requires uz == (d * h - e * g) * x + (b * g - a * h) * y + (a * e - b * d) * z
    ensures a * ux + b * uy + c * uz == Det3(a, b, c, d, e, f, g, h, i) * x
    ensures d * ux + e * uy + f * uz == Det3(a, b, c, d, e, f, g, h, i) * y
    ensures g * ux + h * uy + i * uz == Det3(a, b, c, d, e, f, g, h, i) * z
  {
  }

  /** A row of the reciprocal frame applied to (x, y, z): `s` times the cofactors applied to the offset from the origin. */
  lemma ScaledRow(s: real, k0: real, k1: real, k2: real, o0: real, o1: real, o2: real, x: real, y: real, z: real, w: real)
    requires w == -(s * (k0 * o0 + k1 * o1 + k2 * o2)) + x * (s * k0) + y * (s * k1) + z * (s * k2)
    ensures w == s * (k0 * (x - o0) + k1 * (y - o1) + k2 * (z - o2))
  {
  }

  /** One coordinate of the basis applied to `s` times the transposed cofactors. */
  lemma BackThroughBasis(s: real, det: real, o: real, a: real, b: real, c: real,
                         ux: real, uy: real, uz: real, wx: real, wy: real, wz: real, dx: real, x: real)
    requires s * det == 1.0 && dx == x - o
    requires wx == s * ux && wy == s * uy && wz == s * uz
    requires a * ux + b * uy + c * uz == det * dx
    ensures o + wx * a + wy * b + wz * c == x
  {
    assert wx * a + wy * b + wz * c == s * (a * ux + b * uy + c * uz);
    assert s * (det * dx) == (s * det) * dx;
  }
}
