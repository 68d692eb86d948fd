# Thriving.Geometry in Dafny

A model of the core of Thriving.Geometry, a C# library of plane and space
geometry: vectors and points, homogeneous transforms, a small dense matrix
type, implicit lines and planes, triangles, circles and arcs, segments,
curve paths and chains of segments. The model states what each operation
computes and proves what the library promises about it: round trips,
invariants, case splits of the intersections, and where the code departs
from its own intent.

Conventions of the model:

- `double` is `real`. The global tolerance of `GeometryUtility` is the
  constant `RealMath.Tolerance` (1e-9); the distance tolerance of
  `IsAlmostEqualTo` is 0.01, as the point types default it.
- `Math.Sqrt`, `Sin`, `Cos`, `Tan`, `Acos`, `Atan` and `Math.PI` are the
  fields of a `MathLib` record passed as `math`. `Lawful(math)` lists the
  few facts the proofs use (the square root of a square, sin² + cos² = 1,
  the range of the arc cosine, bounds on pi, ...). Every such fact holds of
  the true functions, so each theorem holds for them.
- An operation that returns `null` returns an `Option`; one that throws
  returns a `Result` whose `Failure` names the .NET exception
  (`InvalidOperation`, `Argument`, `IndexOutOfRange`, `NotImplemented`).
- Value types (the `readonly struct`s and immutable classes) are datatypes
  with member functions. `Matrix` (in-place writes through its indexer,
  nested loops) is a class over an `array2<real>` whose methods are proved
  against the functions on the value type `Mat`. `CurvePath2D` (a list
  grown in place by `Append`) is a class with a `seq` field. The loops of
  `Arc2D.Intersect` and of `Extensions` are methods with invariants.
- Where the code does something other than what it evidently means, the
  model follows the code and a second, corrected member carries the
  intended property (see "## Findings").

Files, one module each: `realmath.dfy` (tolerance, `MathLib`, real
arithmetic lemmas), `results.dfy` (`Option`, `Result`, `IntersectResult`,
`ProjectionResult`), `sequences.dfy`, `matrix.dfy`, `primitives2d.dfy` and
`primitives3d.dfy` (vectors and points), `transform2d.dfy`,
`transform3d.dfy`, `line2d.dfy`, `line3d.dfy`, `plane3d.dfy`,
`segment2d.dfy`, `segment3d.dfy`, `triangle2d.dfy`, `triangle3d.dfy`,
`tetrahedron.dfy`, `circle2d.dfy`, `circle3d.dfy`, `arc2d.dfy`,
`arc3d.dfy`, `fittedcurve2d.dfy`, `fittedcurve3d.dfy`, `curves2d.dfy`
(the bounded plane curves), `curvepath2d.dfy`, `extensions.dfy` and
`slope.dfy`.

## Model

| member | source | states |
|---|---|---|
| Primitives2D.LengthProperties | Thriving.Geometry/2D/Vector2D.cs:62-70 | Length is non-negative, squares to SquareLength, and is 0 exactly for the zero vector |
| Primitives2D.NormalizeIsUnit | Thriving.Geometry/2D/Vector2D.cs:45-48 | a non-zero vector normalises to unit length, scaling back by its length gives the vector, and it points the same way (IsEqualTo) |
| Primitives2D.VerticalProperties | Thriving.Geometry/2D/Vector2D.cs:40-43 | Vertical is perpendicular to the vector, keeps its length, lies counter-clockwise of it, and applied twice equals Negate |
| Primitives2D.NegateProperties | Thriving.Geometry/2D/Vector2D.cs:32-35 | Negate is an involution, v + (−v) is zero, and Negate equals scaling by −1 |
| Primitives2D.ArithmeticProperties | Thriving.Geometry/2D/Vector2D.cs:144-162 | (a+b)−b = a and (a−b)+b = a, + commutes, both orders of scalar * agree, and scaling factors out of the dot product |
| Primitives2D.DotProductProperties | Thriving.Geometry/2D/Vector2D.cs:67-70 | DotProduct is symmetric and a vector's self dot product is its SquareLength (also lines 86-89) |
| Primitives2D.AngleToRange | Thriving.Geometry/2D/Vector2D.cs:96-102 | AngleTo lies in [0, π] and is symmetric |
| Primitives2D.AngleToSelfAndOpposite | Thriving.Geometry/2D/Vector2D.cs:96-102 | a non-zero vector makes angle 0 with itself and π with its negation |
| Primitives2D.CosineOfSelf | Thriving.Geometry/2D/Vector2D.cs:96-102 | the cosine AngleTo takes between a non-zero vector and itself is 1 |
| Primitives2D.CosineOfOpposite | Thriving.Geometry/2D/Vector2D.cs:96-102 | the cosine between a non-zero vector and its negation is −1 |
| Primitives2D.IsEqualToMeansSameDirection | Thriving.Geometry/2D/Vector2D.cs:127-133 | IsEqualTo implies the first vector is non-zero and the second is a multiple of it |
| Primitives2D.SameDirectionIsEqualTo | Thriving.Geometry/2D/Vector2D.cs:127-133 | a non-zero vector IsEqualTo every positive multiple of itself |
| Primitives2D.IsCounterClockwiseTotal | Thriving.Geometry/2D/Vector2D.cs:138-142 | of any two vectors at least one is counter-clockwise to the other, and both hold exactly when the cross product is 0 |
| Primitives2D.BetweenProperties | Thriving.Geometry/2D/Vector2D.cs:20-24 | Vector2D(pA, pB) carries pA to pB, equals pB − pA, and its square length is the squared distance |
| Primitives2D.AddSubtractInverse | Thriving.Geometry/2D/Point2D.cs:62-70 | p.Add(v).Subtract(v) = p, the reverse order too, and Subtract(v) = Add(−v) |
| Primitives2D.DistanceProperties | Thriving.Geometry/2D/Point2D.cs:51-54 | DistanceTo is non-negative, symmetric, squares to the squared distance, is 0 exactly for equal points, and equals the length of the vector between them |
| Primitives2D.IsAlmostEqualToProperties | Thriving.Geometry/2D/Point2D.cs:56-60 | IsAlmostEqualTo (distance ≤ tolerance, inclusive) is reflexive and symmetric |
| Primitives3D.LengthProperties | Thriving.Geometry/3D/Vector3D.cs:61-72 | Length is non-negative, squares to SquareLength, and is 0 exactly for the zero vector |
| Primitives3D.NormalizeIsUnit | Thriving.Geometry/3D/Vector3D.cs:79-82 | a non-zero vector has positive length, normalises to unit length, and scaling back by its length gives the vector |
| Primitives3D.CrossSquare | Thriving.Geometry/3D/Vector3D.cs:106-112 | Lagrange's identity: \|a×b\|² = \|a\|²\|b\|² − (a·b)² |
| Primitives3D.CrossProductProperties | Thriving.Geometry/3D/Vector3D.cs:106-112 | the cross product is perpendicular to both operands, anti-commutative, and a×a = 0 |
| Primitives3D.BasisXCrossBasisY | Thriving.Geometry/3D/Vector3D.cs:52-54 | BasisX × BasisY = BasisZ (also lines 106-112) |
| Primitives3D.BasisYCrossBasisZ | Thriving.Geometry/3D/Vector3D.cs:52-54 | BasisY × BasisZ = BasisX (also lines 106-112) |
| Primitives3D.BasisZCrossBasisX | Thriving.Geometry/3D/Vector3D.cs:52-54 | BasisZ × BasisX = BasisY (also lines 106-112) |
| Primitives3D.DotProductProperties | Thriving.Geometry/3D/Vector3D.cs:69-72 | DotProduct is symmetric and the self dot product is SquareLength (also lines 93-96) |
| Primitives3D.ArithmeticProperties | Thriving.Geometry/3D/Vector3D.cs:74-77 | Negate is an involution equal to scaling by −1, v + (−v) = 0, (a+b)−b = a, (a−b)+b = a, both orders of scalar * agree, and scaling factors out of the dot product (also lines 160-178) |
| Primitives3D.FromVector2DProperties | Thriving.Geometry/3D/Vector3D.cs:27-32 | Vector3D(v2, z) copies X and Y, sets Z, and Z defaults to 0 |
| Primitives3D.IsAlmostEqualToSelf | Thriving.Geometry/3D/Vector3D.cs:119-125 | a non-zero vector IsAlmostEqualTo itself |
| Primitives3D.NotAlmostEqualToNegation | Thriving.Geometry/3D/Vector3D.cs:119-125 | no vector IsAlmostEqualTo its negation |
| Primitives3D.AngleToRange | Thriving.Geometry/3D/Vector3D.cs:132-138 | AngleTo lies in [0, π] |
| Primitives3D.BetweenProperties | Thriving.Geometry/3D/Vector3D.cs:20-25 | Vector3D(pA, pB) carries pA to pB, equals pB − pA, and its square length is the squared distance |
| Primitives3D.AddSubtractInverse | Thriving.Geometry/3D/Point3D.cs:84-92 | p.Add(v).Subtract(v) = p, the reverse order too, and Subtract(v) = Add(−v) |
| Primitives3D.FromPoint2DAndScale | Thriving.Geometry/3D/Point3D.cs:45-50 | Point3D(p2, z) copies X and Y and sets Z (default 0); Scale multiplies all three coordinates, Scale(1) is the identity and Scale(0) the origin (also lines 94-97) |
| Primitives3D.SquareDistanceProperties | Thriving.Geometry/3D/Point3D.cs:67-70 | SquareDistanceTo is symmetric, non-negative and 0 exactly for equal points |
| Primitives3D.DistanceProperties | Thriving.Geometry/3D/Point3D.cs:57-60 | DistanceTo is non-negative, symmetric, squares to SquareDistanceTo and is 0 exactly for equal points |
| Primitives3D.ProjectDistanceIgnoresZ | Thriving.Geometry/3D/Point3D.cs:75-78 | ProjectDistanceTo does not depend on either Z and equals the 2D distance of the XY shadows |
| Primitives3D.IsAlmostEqualToProperties | Thriving.Geometry/3D/Point3D.cs:99-103 | IsAlmostEqualTo is strict (distance < tolerance): a point matches itself only for a positive tolerance, never at tolerance equal to the distance, and the relation is symmetric |
| Matrices.Matrix.constructor | Thriving.Geometry/Matrix.cs:26-29 | a new rowCount×colCount matrix holds zeros |
| Matrices.Matrix.FromArray | Thriving.Geometry/Matrix.cs:31-34 | the matrix shares the given array |
| Matrices.Matrix.Get | Thriving.Geometry/Matrix.cs:20-24 | the indexer reads entry (i, j) |
| Matrices.Matrix.Set | Thriving.Geometry/Matrix.cs:20-24 | the indexer writes entry (i, j) and leaves every other entry unchanged |
| Matrices.UpdateProperties | Thriving.Geometry/Matrix.cs:20-24 | after a write, entry (i, j) holds the value and every other entry is unchanged |
| Matrices.Matrix.GetCofactor | Thriving.Geometry/Matrix.cs:125-136 | the result is a fresh (RowCount−1)×(ColCount−1) matrix equal to Cofactor of the entries |
| Matrices.CofactorEntries | Thriving.Geometry/Matrix.cs:125-136 | cofactor entry (i, j) is source entry (i<r ? i : i+1, j<c ? j : j+1), case by case |
| Matrices.Matrix.DetValue | Thriving.Geometry/Matrix.cs:39-58 | the loop returns Det: the entry of a 1-row matrix, otherwise the signed first-row cofactor expansion |
| Matrices.DetOneRow | Thriving.Geometry/Matrix.cs:43-46 | the determinant of a one-row matrix is its first entry |
| Matrices.DetNoColumns | Thriving.Geometry/Matrix.cs:47-56 | a matrix with no columns (and not one row) has determinant 0: the loop never runs |
| Matrices.DetUndefinedSizes | Thriving.Geometry/Matrix.cs:39-58 | the determinant is undefined (the source runs off its array) exactly when rows = cols + 1 or there are no rows but some columns (also lines 125-136) |
| Matrices.DetTwoByTwo | Thriving.Geometry/Matrix.cs:39-58 | the expansion of a 2×2 matrix is ad − bc |
| Matrices.DetThreeByThree | Thriving.Geometry/Matrix.cs:39-58 | the expansion of a 3×3 matrix is the closed-form rule of Sarrus |
| Matrices.Det3DependentColumns | Thriving.Geometry/Matrix.cs:39-58 | a 3×3 determinant whose third column is a combination of the first two is 0 (three coplanar vectors) |
| Matrices.MinorOfThreeByThree | Thriving.Geometry/Matrix.cs:125-136 | each minor of a 3×3 matrix is the 2×2 determinant of the entries left after skipping row r and column c |
| Matrices.Matrix.AdjointEntry | Thriving.Geometry/Matrix.cs:102-117 | entry (i, j) of the adjoint is (−1)^(i+j)·det(GetCofactor(i, j)), untransposed |
| Matrices.Matrix.GetAdjoint | Thriving.Geometry/Matrix.cs:102-117 | the result is a fresh matrix equal to Adjoint of the entries (the signed cofactors, not transposed) |
| Matrices.Matrix.AdjointRow | Thriving.Geometry/Matrix.cs:106-114 | one pass of the outer loop fills row i with the signed cofactors and leaves the other rows unchanged |
| Matrices.AdjointCell | Thriving.Geometry/Matrix.cs:102-117 | each adjoint entry is the signed cofactor determinant |
| Matrices.Matrix.InverseEntry | Thriving.Geometry/Matrix.cs:63-78 | entry (i, j) of the inverse is (−1)^(i+j)·det(GetCofactor(j, i))/DetValue |
| Matrices.Matrix.GetInverse | Thriving.Geometry/Matrix.cs:63-78 | the result is a fresh matrix equal to Inverse of the entries |
| Matrices.Matrix.InverseRow | Thriving.Geometry/Matrix.cs:67-75 | one pass of the outer loop fills row i of the inverse and leaves the other rows unchanged |
| Matrices.InverseCell | Thriving.Geometry/Matrix.cs:63-78 | each inverse entry is the transposed signed cofactor over the determinant |
| Matrices.InverseIsTransposedAdjoint | Thriving.Geometry/Matrix.cs:63-78 | Inverse equals the transposed Adjoint divided entrywise by the determinant (also lines 102-117) |
| Matrices.InverseOneByOne | Thriving.Geometry/Matrix.cs:63-78 | a non-zero 1×1 matrix has the 1×1 zero matrix as inverse, because the cofactor of a 1×1 matrix has no rows and determinant 0 |
| Matrices.InverseOfThreeIsInverse | Thriving.Geometry/Matrix.cs:63-78 | for a 3×3 matrix with non-zero determinant, M·Inverse and Inverse·M are both the identity |
| Matrices.InverseEntryOfThree | Thriving.Geometry/Matrix.cs:63-78 | each entry of a 3×3 inverse is the transposed signed 2×2 minor over the determinant |
| Matrices.Matrix.GetTranspose | Thriving.Geometry/Matrix.cs:83-97 | the result is a fresh matrix equal to Transpose of the entries |
| Matrices.TransposeInvolution | Thriving.Geometry/Matrix.cs:83-97 | the transpose swaps the dimensions, puts entry (i, j) at (j, i), and transposing twice gives the original |
| Matrices.Matrix.Plus | Thriving.Geometry/Matrix.cs:138-157 | `operator +` fails exactly as Sum does and otherwise returns a fresh matrix holding Sum |
| Matrices.SumErrors | Thriving.Geometry/Matrix.cs:138-157 | `operator +` throws InvalidOperation when the column counts differ or the row counts are equal, runs off the second matrix when it has fewer rows, and otherwise adds entrywise with the first operand's size |
| Matrices.Matrix.Minus | Thriving.Geometry/Matrix.cs:159-178 | `operator -` fails exactly as Difference does and otherwise returns a fresh matrix holding Difference |
| Matrices.DifferenceIsSum | Thriving.Geometry/Matrix.cs:159-178 | `operator -` gives exactly what `operator +` gives |
| Matrices.Matrix.ScaledBy | Thriving.Geometry/Matrix.cs:180-191 | scalar multiplication returns a fresh matrix of the same size with every entry multiplied |
| Matrices.ScaleProperties | Thriving.Geometry/Matrix.cs:180-191 | scaling by 1 is the identity, two scalings compose by multiplying the factors, and scaling commutes with transposition |
| Matrices.Matrix.RowTimesColumnOf | Thriving.Geometry/Matrix.cs:203-210 | the inner loop returns Σk m[i,k]·n[k,j], the product's entry (i, j) |
| Matrices.Matrix.Multiply | Thriving.Geometry/Matrix.cs:193-214 | for matching sizes, the result is a fresh m.RowCount×n.ColCount matrix holding the matrix product |
| Matrices.Matrix.ProductRow | Thriving.Geometry/Matrix.cs:201-211 | one pass of the outer loop fills row i of the product and leaves the other rows unchanged |
| Matrices.Matrix.Times | Thriving.Geometry/Matrix.cs:193-214 | `operator *` fails exactly as Product does and otherwise returns a fresh matrix holding the product |
| Matrices.ProductErrors | Thriving.Geometry/Matrix.cs:193-214 | the product fails with InvalidOperation exactly when left.ColCount ≠ right.RowCount, and otherwise has size left.RowCount×right.ColCount |
| Matrices.ProductIdentity | Thriving.Geometry/Matrix.cs:193-214 | multiplying by the identity on either side gives the matrix back |
| Matrices.ProductCell | Thriving.Geometry/Matrix.cs:193-214 | each product entry is the row-times-column sum |
| Matrices.SameSizeSumRefused | Thriving.Geometry/Matrix.cs:140 | as written, two 2×2 zero matrices are refused by both `operator +` and `operator -`, where the corrected sum adds them (also lines 161) |
| Matrices.DifferenceAdds | Thriving.Geometry/Matrix.cs:174 | as written, [1] minus the column (1, 0) gives [2]: the entries are added, not subtracted |
| Matrices.CorrectedSumSpec | Thriving.Geometry/Matrix.cs:138-157 | the corrected sum succeeds exactly on operands of one size, adds the entries, and does not depend on the order of the operands |
| Matrices.CorrectedDifferenceSpec | Thriving.Geometry/Matrix.cs:159-178 | the corrected difference succeeds exactly on operands of one size, adding back what was subtracted restores the left operand, and a matrix minus itself is zero |
| Transforms2D.FromFrame | Thriving.Geometry/2D/Transform2D.cs:19-32 | the frame constructor keeps the given origin and bases and has the affine bottom row (0, 0, 1) |
| Transforms2D.OfMatrix | Thriving.Geometry/2D/Transform2D.cs:34-49 | the transform built from a matrix reads back as that matrix (also lines 54-66) |
| Transforms2D.FromMatrixRoundTrip | Thriving.Geometry/2D/Transform2D.cs:34-49 | the matrix constructor succeeds exactly on 3×3 matrices, reading the result back gives the matrix, and rebuilding from a transform's own matrix gives the transform (also lines 54-66) |
| Transforms2D.OfPointFormula | Thriving.Geometry/2D/Transform2D.cs:185-189 | OfPoint(p) = origin + p.X·basisX + p.Y·basisY for an affine transform |
| Transforms2D.OfPointComponents | Thriving.Geometry/2D/Transform2D.cs:185-189 | OfPoint's two coordinates, written out over the fields |
| Transforms2D.OfVectorFormula | Thriving.Geometry/2D/Transform2D.cs:191-195 | OfVector(v) = v.X·basisX + v.Y·basisY: the origin is ignored |
| Transforms2D.MultiplyComposes | Thriving.Geometry/2D/Transform2D.cs:197-201 | for affine a and b, a.Multiply(b).OfPoint(p) = a.OfPoint(b.OfPoint(p)) |
| Transforms2D.MultiplyAffine | Thriving.Geometry/2D/Transform2D.cs:197-201 | the product of two affine transforms is affine |
| Transforms2D.IdentityFixes | Thriving.Geometry/2D/Transform2D.cs:52 | Identity maps every point and every vector to itself |
| Transforms2D.TranslationMoves | Thriving.Geometry/2D/Transform2D.cs:83-86 | CreateTranslation(v) maps p to p + v and leaves vectors unchanged |
| Transforms2D.TranslationExample | Thriving.Geometry.Test/TransfromTest.cs:6-11 | translating (0.5, 0.5) by (0.5, 0) gives (1, 0.5) |
| Transforms2D.ScaleMultiplies | Thriving.Geometry/2D/Transform2D.cs:121-127 | CreateScale(x, y) maps (px, py) to (x·px, y·py) |
| Transforms2D.AtPointFormula | Thriving.Geometry/2D/Transform2D.cs:106-113 | the "at point" sandwich T(o)·B·T(−o) maps p to B(p − o) + o (also lines 136-143, 176-183) |
| Transforms2D.ScaleAtPointMultiplies | Thriving.Geometry/2D/Transform2D.cs:136-143 | CreateScaleAtPoint scales each coordinate's offset from the pivot, so the pivot is fixed |
| Transforms2D.ScaleExamples | Thriving.Geometry.Test/TransfromTest.cs:30-42 | scale (0.1, 0.5) sends (1, 1) to (0.1, 0.5), and at pivot (1, 1) sends (2, 2) to (1.1, 1.5) |
| Transforms2D.RotationIsRigid | Thriving.Geometry/2D/Transform2D.cs:93-99 | a rotation keeps vector lengths, is right-handed, and rotation by 0 is Identity |
| Transforms2D.RotationAtPointFixesCentre | Thriving.Geometry/2D/Transform2D.cs:106-113 | a rotation about a point fixes that point |
| Transforms2D.RightHandIsPositiveDeterminant | Thriving.Geometry/2D/Transform2D.cs:73-76 | the determinant of an affine transform is the basis cross product, and IsRightHand holds exactly when it is positive |
| Transforms2D.InverseOfAffine | Thriving.Geometry/2D/Transform2D.cs:206-212 | the inverse of an affine transform with non-zero determinant is its 2×2 adjugate over the determinant, with origin −(adjugate·origin)/det and bottom row (0, 0, 1) again |
| Transforms2D.InverseUndoes | Thriving.Geometry/2D/Transform2D.cs:206-212 | for an affine transform with non-zero determinant, Inverse undoes OfPoint and OfPoint undoes Inverse |
| Transforms2D.ReflectionInXAxis | Thriving.Geometry/2D/Transform2D.cs:150-160 | reflection in a positive multiple of the X axis maps (x, y) to (x, −y) |
| Transforms2D.MirrorInXAxis | Thriving.Geometry/2D/Transform2D.cs:150-160 | reflection in any axis whose direction IsEqualTo BasisX maps (x, y) to (x, −y) |
| Transforms2D.ReflectionInYAxis | Thriving.Geometry/2D/Transform2D.cs:150-160 | reflection in a positive multiple of the Y axis maps (x, y) to (−x, y) |
| Transforms2D.MirrorInYAxis | Thriving.Geometry/2D/Transform2D.cs:150-160 | reflection in any axis whose direction IsEqualTo BasisY maps (x, y) to (−x, y) |
| Transforms2D.ReflectionExamples | Thriving.Geometry.Test/TransfromTest.cs:72-84 | the Y-axis reflection maps (1, 1) to (−1, 1), and reflecting in the vertical through (1, 1) maps (2, 2) to (0, 2) |
| Transforms2D.ReflectionAtPointFormula | Thriving.Geometry/2D/Transform2D.cs:176-183 | CreateReflectionAtPoint maps p to CreateReflection applied to p − origin, moved back by origin |
| Transforms2D.ReflectionMovesAxisPoint | Thriving.Geometry/2D/Transform2D.cs:161-167 | as written, the general branch with axis (0, −1) sends the axis point (0, 1) to (0, −1) |
| Transforms2D.ReflectionAtPointMovesAxisPoint | Thriving.Geometry/2D/Transform2D.cs:176-183 | as written, CreateReflectionAtPoint with axis (0, −1) through the origin moves the axis point (0, 1) to (0, −1), while the corrected mirror keeps it |
| Transforms2D.CreateMirrorIsUnitMirror | Thriving.Geometry/2D/Transform2D.cs:150-168 | the corrected reflection is the mirror frame of the unit axis |
| Transforms2D.MirrorFixesAxis | Thriving.Geometry/2D/Transform2D.cs:150-168 | the corrected mirror fixes every point on its axis |
| Transforms2D.MirrorNegatesNormal | Thriving.Geometry/2D/Transform2D.cs:150-168 | the corrected mirror negates every point on the axis normal |
| Transforms2D.MirrorInvolution | Thriving.Geometry/2D/Transform2D.cs:150-168 | the corrected mirror applied twice is the identity |
| Transforms2D.MirrorAgreesOnXAxis | Thriving.Geometry/2D/Transform2D.cs:152-155 | on a positive X axis the corrected mirror equals the source's special case |
| Transforms2D.MirrorAgreesOnYAxis | Thriving.Geometry/2D/Transform2D.cs:156-159 | on a positive Y axis the corrected mirror equals the source's special case |
| Transforms2D.MirrorAtPointFormula | Thriving.Geometry/2D/Transform2D.cs:176-183 | the corrected mirror about a point maps p to the mirror of p − origin, moved back by origin |
| Transforms2D.MirrorAtPointKeepsAxisPoint | Thriving.Geometry/2D/Transform2D.cs:176-183 | the corrected mirror about the origin with axis (0, −1) keeps the axis point (0, 1) |
| Transforms3D.FromFrame | Thriving.Geometry/3D/Transform3D.cs:46-67 | the frame constructor keeps the given origin and three bases and has the affine bottom row (0, 0, 0, 1) |
| Transforms3D.OfMatrix | Thriving.Geometry/3D/Transform3D.cs:21-44 | the transform built from a matrix reads back as that matrix (also lines 71-84) |
| Transforms3D.FromMatrixRoundTrip | Thriving.Geometry/3D/Transform3D.cs:21-44 | the matrix constructor succeeds exactly on 4×4 matrices, reading the result back gives the matrix, and rebuilding from a transform's own matrix gives the transform (also lines 71-84) |
| Transforms3D.OfPointFormula | Thriving.Geometry/3D/Transform3D.cs:188-192 | OfPoint(p) = origin + x·basisX + y·basisY + z·basisZ for an affine transform |
| Transforms3D.OfPointComponents | Thriving.Geometry/3D/Transform3D.cs:188-192 | OfPoint's three coordinates, written out over the fields |
| Transforms3D.OfVectorFormula | Thriving.Geometry/3D/Transform3D.cs:194-198 | OfVector applies only the linear part: the origin is ignored |
| Transforms3D.MultiplyComposes | Thriving.Geometry/3D/Transform3D.cs:200-204 | for affine a and b, a.Multiply(b).OfPoint(p) = a.OfPoint(b.OfPoint(p)) |
| Transforms3D.MultiplyAffine | Thriving.Geometry/3D/Transform3D.cs:200-204 | the product of two affine transforms is affine |
| Transforms3D.IdentityFixes | Thriving.Geometry/3D/Transform3D.cs:69 | Identity maps every point and every vector to itself |
| Transforms3D.TranslationMoves | Thriving.Geometry/3D/Transform3D.cs:91-94 | CreateTranslation(v) maps p to p + v and leaves vectors unchanged |
| Transforms3D.ScaleMultiplies | Thriving.Geometry/3D/Transform3D.cs:145-152 | CreateScale(x, y, z) multiplies each coordinate by its factor |
| Transforms3D.AtPointFormula | Thriving.Geometry/3D/Transform3D.cs:161-168 | the "at point" sandwich T(o)·B·T(−o) maps p to B(p − o) + o |
| Transforms3D.ScaleAtPointMultiplies | Thriving.Geometry/3D/Transform3D.cs:161-168 | CreateScaleAtPoint scales each coordinate's offset from the pivot and fixes the pivot |
| Transforms3D.ScaleExamples | Thriving.Geometry.Test/TransfromTest.cs:46-67 | scale (0.1, 0.5, 0.2) sends (1, 1, 1) to (0.1, 0.5, 0.2); at pivot (1, 1, 1) it keeps the pivot and sends (2, 2, 2) to (1.1, 1.5, 1.2) |
| Transforms3D.AffineDet | Thriving.Geometry/3D/Transform3D.cs:209-215 | the 4×4 determinant of an affine transform is the 3×3 determinant of its bases |
| Transforms3D.InverseIsReciprocal | Thriving.Geometry/3D/Transform3D.cs:209-215 | the inverse of an affine transform with non-zero determinant is the transposed basis cofactors over the determinant, with origin −(that matrix·origin) and bottom row (0, 0, 0, 1) |
| Transforms3D.InverseUndoes | Thriving.Geometry/3D/Transform3D.cs:209-215 | for an affine transform with non-zero determinant, Inverse is affine, undoes OfPoint, and OfPoint undoes it |
| Transforms3D.OfPointInjective | Thriving.Geometry/3D/Transform3D.cs:188-192 | a transform whose bases have non-zero determinant maps distinct points to distinct points |
| Lines2D.SlopeLine | Thriving.Geometry/2D/Line2D.cs:34-39 | a point is on Line2D(k, b) exactly when y = k·x + b |
| Lines2D.PointSlopeLine | Thriving.Geometry/2D/Line2D.cs:46-51 | Line2D(k, point) passes through point, and a point is on it exactly when its rise from point is k times its run |
| Lines2D.DirectionLine | Thriving.Geometry/2D/Line2D.cs:53-58 | Line2D(point, dir) passes through every point + t·dir, and a point is on it exactly when its offset from point is parallel to dir |
| Lines2D.TwoPointLine | Thriving.Geometry/2D/Line2D.cs:60-80 | Line2D(pA, pB) misses each point's equation by less than the tolerance in all three branches, and passes exactly through both when both differences reach the tolerance |
| Lines2D.GetPointByXSpec | Thriving.Geometry/2D/Line2D.cs:83-93 | GetPointByX returns null exactly when B = 0, and otherwise a point on the line with the given x |
| Lines2D.GetPointByYSpec | Thriving.Geometry/2D/Line2D.cs:95-105 | GetPointByY returns null exactly when A = 0, and otherwise a point on the line with the given y |
| Lines2D.ParallelRelation | Thriving.Geometry/2D/Line2D.cs:169-172 | IsParallel is reflexive and symmetric |
| Lines2D.IntersectSpec | Thriving.Geometry/2D/Line2D.cs:179-196 | the corrected Intersect returns null exactly for parallel lines; otherwise its point is on both lines and is the only such point |
| Lines2D.IntersectOnBoth | Thriving.Geometry/2D/Line2D.cs:179-196 | for non-parallel lines the corrected crossing point satisfies both equations |
| Lines2D.IntersectUnique | Thriving.Geometry/2D/Line2D.cs:179-196 | any point on both of two non-parallel lines is the crossing point |
| Lines2D.IntersectDividesByZero | Thriving.Geometry/2D/Line2D.cs:186-189 | as written, for x + 1e-10·y = 0 against x = 1 (not parallel) the source takes its ordinate divisor from the vertical line, which is 0 |
| Lines2D.DistanceSign | Thriving.Geometry/2D/Line2D.cs:120-123 | the signed distance times the normal length is A·x + B·y − C: it is 0 exactly on the line and positive exactly on the side where that residual is |
| Lines2D.DistanceExamples | Thriving.Geometry.Test/LineTest.cs:8-14 | the lines through the origin along (2, 2) and with slope 1 are both at squared distance 0.5 from (1, 0) and from (0, 1) |
| Lines2D.ProjectionShortcuts | Thriving.Geometry/2D/Line2D.cs:125-137 | for \|A\| < tol the projection is (p.X, C/B) at distance p.Y − C/B; for \|B\| < tol it is (C/A, p.Y) at distance p.X − C/A; both are on the line when the small coefficient is 0 |
| Lines2D.ProjectionIsFoot | Thriving.Geometry/2D/Line2D.cs:138-151 | on the general branch the projection lies on the line, its distance is DistanceTo, and the point is the foot moved back along the normal by that distance |
| Lines2D.DirectionSpec | Thriving.Geometry/2D/Line2D.cs:107-113 | Direction is (−B, A) divided by the normal length |
| Lines3D.CreateNormalises | Thriving.Geometry/3D/Line3D.cs:8-12 | the constructor keeps the origin and stores a unit direction that scales back to the given one |
| Lines3D.PointsAlongAreInner | Thriving.Geometry/3D/Line3D.cs:23-29 | the origin and every origin + t·direction are on the line |
| Lines3D.InnerIffNearLine | Thriving.Geometry/3D/Line3D.cs:23-29 | for a unit direction, IsInner holds exactly when the squared distance from the line, \|v\|² − (v·d)², is below tolerance² |
| Lines3D.ProjectionDistance | Thriving.Geometry/3D/Line3D.cs:36-41 | the distance Projection reports, \|v\|·sin(angle), is non-negative and squares to \|v × d\|², the squared distance from the line |
| Lines3D.ProjectionStaysOffLine | Thriving.Geometry/3D/Line3D.cs:36-48 | as written, Projection moves the point along the line, so its point has the same cross product with the direction as the input: it is on the line exactly when the input already was |
| Lines3D.OffXAxis | Thriving.Geometry/3D/Line3D.cs:36-48 | (0, 1, 0) is off the X axis, so by the lemma above the point Projection returns for it is off the axis too |
| Lines3D.FootOfPerpendicularSpec | Thriving.Geometry/3D/Line3D.cs:31-48 | the corrected projection lies on the line, the offset from it to the point is perpendicular to the direction, and its length squared is the reported distance squared |
| Planes3D.FromNormalAndPointSpec | Thriving.Geometry/3D/Plane3D.cs:32-39 | Plane3D(normal, point) has that normal, contains point, and contains exactly the points whose offset from point is perpendicular to the normal (also lines 52-55) |
| Planes3D.FromNormalAndDistanceSpec | Thriving.Geometry/3D/Plane3D.cs:18-25 | Plane3D(normal, distance) stores the coefficients verbatim, so with a unit normal the origin is at signed distance −distance |
| Planes3D.CoordinatePlanes | Thriving.Geometry/3D/Plane3D.cs:43-45 | PlaneXY, PlaneYZ and PlaneZX are z = 0, x = 0 and y = 0, so each contains the origin |
| Planes3D.DistanceSign | Thriving.Geometry/3D/Plane3D.cs:72-75 | the signed distance times the normal length is the residual: it is 0 exactly on the plane, positive on the normal's side and negative on the other |
| Planes3D.DistanceExamples | Thriving.Geometry.Test/Plane3DTest.cs:6-17 | for 2z = 5 the distance is 0 at (1, 1, 2.5), positive at z = 15 and negative at z = 1 |
| Planes3D.SignOfDistance | Thriving.Geometry/3D/Plane3D.cs:72-75 | for the plane 2z = 5 the distance is 0, positive or negative exactly as 2z is equal to, above or below 5 |
| Planes3D.ProjectionSpec | Thriving.Geometry/3D/Plane3D.cs:82-91 | Projection reports DistanceTo(point), its point is on the plane, and the point is the projection moved along the unit normal by that distance |
| Planes3D.CoplanarLineSpec | Thriving.Geometry/3D/Plane3D.cs:57-65 | IsCoplanar(line) holds exactly when the origin and origin + direction are on the plane, and then every point of the line is |
| Planes3D.AngleToRangeSpec | Thriving.Geometry/3D/Plane3D.cs:98-102 | the angle between a plane and a non-zero vector lies in [−π/2, π/2] |
| Planes3D.IntersectSpec | Thriving.Geometry/3D/Plane3D.cs:109-126 | Intersect returns the point itself when it is on the plane, null exactly when it is off the plane and the direction is perpendicular to the normal, and otherwise a point on the plane |
| Planes3D.IntersectOnLine | Thriving.Geometry/3D/Plane3D.cs:109-126 | the point Intersect returns lies on the line through the point along the vector |
| Planes3D.IntersectLineHit | Thriving.Geometry/3D/Plane3D.cs:109-126 | for a line's origin and direction, a returned point is on both the plane and the line |
| Planes3D.IntersectUnique | Thriving.Geometry/3D/Plane3D.cs:109-126 | when the direction is not perpendicular to the normal, Intersect returns the one point on both the plane and the line |
| Planes3D.ParallelExample | Thriving.Geometry.Test/Plane3DTest.cs:19-20 | a line along BasisX off the plane 2z = 5 does not meet it |
| Planes3D.VerticalExample | Thriving.Geometry.Test/Plane3DTest.cs:22-24 | (1, 0, 0) along 2·BasisZ meets 2z = 5 at (1, 0, 2.5) |
| Planes3D.TiltedPlane | Thriving.Geometry.Test/Plane3DTest.cs:33 | Plane3D((1, 0, 1), (1, 0, 0)) is x + z = 1 |
| Planes3D.TiltedParallelExample | Thriving.Geometry.Test/Plane3DTest.cs:44-45 | (1, 0, 1) along (1, 0, −1) does not meet x + z = 1 |
| Planes3D.TiltedExample | Thriving.Geometry.Test/Plane3DTest.cs:47-48 | (1, 0, 1) along BasisZ meets x + z = 1 at (1, 0, 0) |
| Planes3D.IsIntersectSpec | Thriving.Geometry/3D/Plane3D.cs:133-160 | IsIntersect returns true exactly with a point; that point is Intersect's, is on the plane, and is no farther than the segment's length from either end; conversely an Intersect hit within the length of both ends makes it return true with that hit |
| Segments3D.GetPointSpec | Thriving.Geometry/3D/Segment3D.cs:35-41 | GetPoint(0) is the start, GetPoint(1) the end, and GetPoint(r) is the start moved by r times the span |
| Segments3D.GetPointDistance | Thriving.Geometry/3D/Segment3D.cs:23 | the distance between GetPoint(a) and GetPoint(b) is \|b − a\| times the segment's length (also lines 35-41) |
| Segments3D.DirectionSpec | Thriving.Geometry/3D/Segment3D.cs:23-28 | a non-degenerate segment's Direction is a unit vector that scales by the length to the span |
| Segments3D.ExtendSpec | Thriving.Geometry/3D/Segment3D.cs:49-55 | Extend(start, end) runs from GetPoint(−start) to GetPoint(1 + end) |
| Segments3D.ExtendLength | Thriving.Geometry/3D/Segment3D.cs:49-55 | Extend(0, 0) is the segment itself, and Extend(start, end) is \|1 + start + end\| times as long |
| Segments3D.ReversedSpec | Thriving.Geometry/3D/Segment3D.cs:63-66 | the reversed segment swaps the ends, runs the same points backwards, keeps the length, and reversing twice gives the segment |
| Segments3D.TransformedSpec | Thriving.Geometry/3D/Segment3D.cs:57-61 | each point of the transformed segment is the transform of the matching point of the segment |
| Segments3D.OffsetTranslates | Thriving.Geometry/3D/Segment3D.cs:73-77 | CreateOffset moves both ends by the same offset vector, so it keeps the span and the length |
| Segments3D.OffsetVectorSpec | Thriving.Geometry/3D/Segment3D.cs:75 | the offset vector is perpendicular to the segment and has length \|offsetDist\| |
| Segments2D.CreateSpec | Thriving.Geometry/2D/Segment2D.cs:11-18 | a new segment (identity frame) reports the given start and end points |
| Segments2D.GetPointSpec | Thriving.Geometry/2D/Segment2D.cs:68-73 | GetPoint(0) is StartPoint, GetPoint(1) is EndPoint, and GetPoint(r) is StartPoint moved by r times the vector to EndPoint |
| Segments2D.ReversedSpec | Thriving.Geometry/2D/Segment2D.cs:110-113 | the reversed segment swaps the ends and runs the same points backwards; reversing twice gives a plain segment between the same end points |
| Segments2D.TransformedSpec | Thriving.Geometry/2D/Segment2D.cs:88-95 | the transformed segment's ends and every point are the transform's images of the segment's, and its stored length is unchanged |
| Segments2D.OffsetSpec | Thriving.Geometry/2D/Segment2D.cs:102-108 | CreateOffset moves both stored ends by one vector, perpendicular to the segment and of length \|offsetDist\|, so the length is kept |
| Segments2D.IntersectSpec | Thriving.Geometry/2D/Segment2D.cs:44-61 | a line parallel to the segment's support line gives null; a result lies on both lines, its end distances add up to less than the length plus the tolerance, and its U parameter is d1/(d1 + d2) in [0, 1] |
| Segments2D.IntersectRatio | Thriving.Geometry/2D/Segment2D.cs:44-61 | a result's point is the crossing of the line and the support line, and its U parameter is d1/(d1 + d2) in [0, 1] |
| Segments2D.IntersectFindsCrossing | Thriving.Geometry/2D/Segment2D.cs:44-61 | conversely (identity frame), a non-parallel line through GetPoint(r) with r in [0, 1] is found there with U parameter r |
| Segments2D.CrossingDistances | Thriving.Geometry/2D/Segment2D.cs:49-50 | GetPoint(r) for r in [0, 1] is r·Length from the start and (1 − r)·Length from the end (also lines 68-73) |
| Segments2D.ExtendSpec | Thriving.Geometry/2D/Segment2D.cs:36-42 | in the identity frame Extend(start, end) runs from GetPoint(−start) to GetPoint(1 + end), and Extend(0, 0) is the segment |
| Segments2D.GetVerticalLineSpec | Thriving.Geometry/2D/Segment2D.cs:80-86 | the perpendicular line passes through GetPoint(ratio), and any step along it is perpendicular to the segment |
| Circles2D.AreaAndPerimeter | Thriving.Geometry/2D/Circle2D.cs:30 | the area is non-negative and zero exactly for radius zero, the perimeter is positive exactly for a positive radius, and r times the perimeter is twice the area (also lines 35) |
| Circles2D.LineIntersectCases | Thriving.Geometry/2D/Circle2D.cs:42-68 | Intersect(line) returns the centre's projection alone exactly when \|r − \|d\|\| is within the tolerance, two points exactly when r − \|d\| exceeds it, and null exactly when \|d\| exceeds r by more than it |
| Circles2D.SecantSymmetric | Thriving.Geometry/2D/Circle2D.cs:55-66 | the two points of a secant are symmetric about the projection and 2·sqrt(r² − d²) apart along the line's direction |
| Circles2D.LineHitsOnCircle | Thriving.Geometry/2D/Circle2D.cs:42-68 | for a line neither nearly horizontal nor nearly vertical every returned point is on the line; the two secant points are exactly r from the centre and the single tangent point within the tolerance of r |
| Circles2D.TangentHit | Thriving.Geometry/2D/Circle2D.cs:45-53 | the single point of a tangent (slanted) line is its projection, on the line, and within the tolerance of r from the centre |
| Circles2D.SecantHits | Thriving.Geometry/2D/Circle2D.cs:55-66 | both points of a secant (slanted line) are on the line and exactly r from the centre |
| Circles2D.SecantDistances | Thriving.Geometry/2D/Circle2D.cs:57-65 | half a chord sqrt(r² − d²) either side of the foot of the perpendicular lies exactly r from the centre |
| Circles2D.CircleIntersectCases | Thriving.Geometry/2D/Circle2D.cs:75-118 | Intersect(circle) gives one point exactly when the centres are r1 + r2 apart, two exactly when the distance is strictly between \|r1 − r2\| and r1 + r2, and null otherwise |
| Circles2D.InternalTangencyMissed | Thriving.Geometry/2D/Circle2D.cs:78 | circles touching from inside (centres \|r1 − r2\| apart) give null, not their touching point (also lines 91) |
| Circles2D.TangentPointOnBoth | Thriving.Geometry/2D/Circle2D.cs:78-89 | for externally touching circles the one point returned is r1 from the first centre and r2 from the second |
| Circles2D.CrossingPointsOnBoth | Thriving.Geometry/2D/Circle2D.cs:91-115 | for crossing circles both returned points are r1 from the first centre and r2 from the second |
| Circles2D.CrossingPoint | Thriving.Geometry/2D/Circle2D.cs:93-104 | the first centre moved r1 along the unit vector to the second centre turned by plus or minus the law-of-cosines angle is on both circles |
| Circles3D.PlaneContainsCentre | Thriving.Geometry/3D/Circle3D.cs:38 | the circle's plane has the circle's normal and contains its centre |
| Circles3D.AreaSpec | Thriving.Geometry/3D/Circle3D.cs:44 | the area is non-negative and zero exactly for radius zero |
| Circles3D.IntersectCount | Thriving.Geometry/3D/Circle3D.cs:51-90 | for a line in the plane: one point exactly when the foot of the centre is at distance r, two exactly when closer, null exactly when farther; for a line across the plane at most one point |
| Circles3D.ParallelMisses | Thriving.Geometry/3D/Circle3D.cs:75-87 | a line parallel to the circle's plane and off it gives null |
| Circles3D.HitsOnCircle | Thriving.Geometry/3D/Circle3D.cs:51-90 | (corrected) every point returned for a unit-direction line is in the circle's plane, on the line and exactly r from the centre |
| Circles3D.CrossingHitOnCircle | Thriving.Geometry/3D/Circle3D.cs:75-87 | a line crossing the plane is reported only at its plane hit, which is on the line, in the plane and r from the centre |
| Circles3D.CoplanarHitsOnCircle | Thriving.Geometry/3D/Circle3D.cs:53-73 | (corrected) the tangent point and the two chord ends of a line in the plane are on the line and r from the centre |
| Circles3D.AsWrittenSameCount | Thriving.Geometry/3D/Circle3D.cs:51-90 | the as-written and the corrected intersection agree for lines across the plane and return the same number of points for lines in it |
| Circles3D.AsWrittenHitsOffLine | Thriving.Geometry/3D/Circle3D.cs:53-73 | as written, when the centre is off a line lying in the plane, none of the returned points is on the line |
| Arcs2D.Arc2D.Intersect | Thriving.Geometry/2D/Arc2D.cs:174-241 | null exactly when the arc's circle misses the line; otherwise the circle's points whose angles from the start and end radii add up to the arc's sweep (or to its complement beyond half a turn), in order, each with its U parameter set |
| Arcs2D.KeptIsSublist | Thriving.Geometry/2D/Arc2D.cs:184-239 | the points Intersect keeps are a sub-list, in order, of the circle's points |
| Arcs2D.KeptSelects | Thriving.Geometry/2D/Arc2D.cs:184-239 | a circle point is kept exactly when its angles from the start and end radii add up to the sweep within the tolerance |
| Arcs2D.KeptParameters | Thriving.Geometry/2D/Arc2D.cs:214-238 | for a sweep of at most half a turn each kept point's U parameter times the sweep is its angle from the start radius |
| Arcs2D.IntersectOnLineAndCircle | Thriving.Geometry/2D/Arc2D.cs:174-241 | on a line neither nearly horizontal nor nearly vertical every kept point is on the line and on the arc's circle (within the tolerance for a tangent) |
| Arcs2D.GetPointOnCircle | Thriving.Geometry/2D/Arc2D.cs:153-159 | in an orthonormal frame every GetPoint(ratio) is \|r\| from the centre |
| Arcs2D.StartPointOnBasis | Thriving.Geometry/2D/Arc2D.cs:19 | with start angle 0 the start point is the centre moved r along the frame's X basis (also lines 153-159) |
| Arcs2D.LengthSpec | Thriving.Geometry/2D/Arc2D.cs:17 | the length is r times the sweep: zero for no sweep, and negated when the angles are swapped |
| Arcs2D.QuarterTurnHandedness | Thriving.Geometry/2D/Arc2D.cs:30-37 | a frame whose Y basis is the X basis turned a quarter counter-clockwise is right-handed, and turned clockwise is not |
| Arcs2D.UnitFrame | Thriving.Geometry/2D/Arc2D.cs:30-37 | an arc built on a unit X basis and its quarter turn either way has an orthonormal frame at the centre, right-handed exactly when counter-clockwise |
| Arcs2D.FromCenterAndAngleSpec | Thriving.Geometry/2D/Arc2D.cs:133-146 | the arc from a centre, a start point and an angle is centred there, with radius the distance to the start point, sweep the angle, start point the given one, and right-handed exactly when ccw |
| Arcs2D.FromCenterSpec | Thriving.Geometry/2D/Arc2D.cs:87-131 | ArgumentException exactly when the radii to the two points differ by more than the tolerance; otherwise centred there with the mean radius, starting on the ray to the start point, right-handed exactly when ccw, sweeping the angle between the radii or its complement according to the turn, and between 0 and a full turn |
| Arcs2D.ThroughPointsCentre | Thriving.Geometry/2D/Arc2D.cs:39-78 | the arc through three points is centred on their circumcentre, equally far from all three, and that distance is the radius |
| Arcs2D.ThroughPointsSpec | Thriving.Geometry/2D/Arc2D.cs:39-78 | the arc through three points starts at angle 0 exactly on the start point, sweeps between 0 and a full turn, and is right-handed exactly when the turn at the middle point from the end point to the start point is counter-clockwise |
| Arcs2D.ExtendSpec | Thriving.Geometry/2D/Arc2D.cs:249-260 | ArgumentException exactly when the stretched sweep exceeds a full turn; otherwise the same frame and radius, sweep and length stretched by 1 + start + end, and each point is the old arc's point at the stretched, shifted ratio |
| Arcs2D.OffsetSpec | Thriving.Geometry/2D/Arc2D.cs:270-275 | the offset arc keeps the frame and the angles, its radius grows by the offset and its length by offset times the sweep |
| Arcs2D.OffsetPointsMove | Thriving.Geometry/2D/Arc2D.cs:270-275 | each point of the offset arc is \|offset\| from the original point at the same ratio and \|r + offset\| from the centre |
| Arcs2D.TransformedSpec | Thriving.Geometry/2D/Arc2D.cs:262-268 | the transformed arc keeps radius, angles and length, its frame is the transform times the old frame, and each of its points is the transform's image of the old point |
| Arcs2D.ReversedSpec | Thriving.Geometry/2D/Arc2D.cs:277-283 | the reversed arc starts at the old end point and passes through the old start and middle points |
| Arcs3D.LengthSpec | Thriving.Geometry/3D/Arc3D.cs:14 | the length is r times the sweep: zero for no sweep, negated when the angles are swapped |
| Arcs3D.GetPointOnCircle | Thriving.Geometry/3D/Arc3D.cs:66-72 | with orthonormal X and Y bases every GetPoint(ratio) is \|r\| from the centre |
| Arcs3D.GetPointInPlane | Thriving.Geometry/3D/Arc3D.cs:66-72 | every GetPoint(ratio) lies in the plane through the centre perpendicular to the frame's Z basis |
| Arcs3D.NormalSpec | Thriving.Geometry/3D/Arc3D.cs:16-25 | the normal is a unit vector perpendicular to the radii to the start and end points |
| Arcs3D.FromAnglesSpec | Thriving.Geometry/3D/Arc3D.cs:31-39 | the arc keeps centre, radius, angles and the given X and Y bases, and its Z basis is a unit vector perpendicular to both |
| Arcs3D.ExtendSpec | Thriving.Geometry/3D/Arc3D.cs:80-91 | ArgumentException exactly when the stretched sweep exceeds a full turn; otherwise the same centre, bases and radius, sweep and length stretched by 1 + start + end, and each point the old arc's point at the stretched, shifted ratio |
| Arcs3D.TransformedSpec | Thriving.Geometry/3D/Arc3D.cs:93-98 | the transformed arc keeps radius, angles and length, is centred at the moved centre with the moved bases, and each point is the transform's image of the old point |
| Arcs3D.ThroughPointsSpec | Thriving.Geometry/3D/Arc3D.cs:41-64 | the arc through three points starts at angle 0, sweeps the angle between the radii to the start and end points or its complement according to the turn against the normal, is equally far (its radius) from all three points |
| Triangles2D.CounterClockwiseSpec | Thriving.Geometry/2D/Triangle2D.cs:22-31 | a triangle is counter-clockwise exactly when the cross product of its edges from V1 is positive; swapping V2 and V3 flips that, and a degenerate triangle is neither way |
| Triangles2D.CircumDeterminantIsCross | Thriving.Geometry/2D/Triangle2D.cs:37-50 | the determinant CircumCenter divides by is the cross product of the edges, zero exactly for a degenerate triangle |
| Triangles2D.CircumCenterSpec | Thriving.Geometry/2D/Triangle2D.cs:37-50 | the circumcentre of a non-degenerate triangle is equally far from all three vertices |
| Triangles2D.CircumCenterUnique | Thriving.Geometry/2D/Triangle2D.cs:37-50 | it is the only point equally far from all three vertices |
| Triangles2D.GramIsCrossSquared | Thriving.Geometry/2D/Triangle2D.cs:58-80 | the Gram determinant IsInner divides by is the squared cross product of the edges, non-zero exactly for a non-degenerate triangle |
| Triangles2D.BarycentricSpec | Thriving.Geometry/2D/Triangle2D.cs:58-80 | the weights u, v IsInner computes rebuild the point: point − V1 = u·EdgeA + v·EdgeB |
| Triangles2D.BarycentricUnique | Thriving.Geometry/2D/Triangle2D.cs:58-80 | any weights that rebuild the point are the ones IsInner computes |
| Triangles2D.IsInnerSpec | Thriving.Geometry/2D/Triangle2D.cs:58-80 | IsInner holds exactly when the weights are non-negative with sum at most 1, strictly so when edge is false |
| Triangles2D.VerticesAnswerEdge | Thriving.Geometry/2D/Triangle2D.cs:58-80 | at each vertex IsInner answers the edge flag |
| Triangles3D.PlaneRowIsNormal | Thriving.Geometry/3D/Triangle3D.cs:66-101 | CircumCenter's plane equation has the triangle's normal as its coefficients |
| Triangles3D.PlaneRowSpec | Thriving.Geometry/3D/Triangle3D.cs:66-101 | a point satisfies that equation exactly when it lies in the triangle's plane |
| Triangles3D.BisectorRowSpec | Thriving.Geometry/3D/Triangle3D.cs:66-101 | a point satisfies a bisector equation exactly when it is equally far from the two vertices |
| Triangles3D.CircumDenominatorSpec | Thriving.Geometry/3D/Triangle3D.cs:66-101 | the determinant CircumCenter divides by is four times the squared normal, non-zero exactly for a non-degenerate triangle |
| Triangles3D.CircumCenterSpec | Thriving.Geometry/3D/Triangle3D.cs:66-101 | the circumcentre is equally far from the three vertices and lies in the triangle's plane |
| Triangles3D.CircumCenterUnique | Thriving.Geometry/3D/Triangle3D.cs:66-101 | it is the only point of the plane equally far from the three vertices |
| Triangles3D.EdgesPerpendicular | Thriving.Geometry/3D/Triangle3D.cs:43-52 | both edges from V1 are perpendicular to the normal |
| Triangles3D.PlaneSpec | Thriving.Geometry/3D/Triangle3D.cs:43-52 | the plane has the unit normal and contains exactly the points whose offset from V1 is perpendicular to the normal (also lines 58-61) |
| Triangles3D.PlaneHoldsVertices | Thriving.Geometry/3D/Triangle3D.cs:58-61 | the triangle's plane contains its three vertices |
| Triangles3D.IsCoplanarSpec | Thriving.Geometry/3D/Triangle3D.cs:165-179 | the 3×3 determinant IsCoplanar tests is minus the offset from V1 dotted with the normal, so IsCoplanar holds exactly when that product is below the tolerance |
| Triangles3D.VerticesCoplanar | Thriving.Geometry/3D/Triangle3D.cs:165-179 | each vertex is coplanar with the triangle |
| Triangles3D.PlanePointsCoplanar | Thriving.Geometry/3D/Triangle3D.cs:58-61 | every point of the triangle's plane passes IsCoplanar (also lines 165-179) |
| Triangles3D.IsInnerIsCoplanar | Thriving.Geometry/3D/Triangle3D.cs:138-158 | a point IsInner accepts passes the coplanarity test |
| Triangles3D.CounterClockwiseSpec | Thriving.Geometry/3D/Triangle3D.cs:25-33 | counter-clockwise exactly when the normal's Z is positive, as for the triangle of the XY projections; swapping V2 and V3 flips it |
| Triangles3D.ProjectionIsFlat | Thriving.Geometry/3D/Triangle3D.cs:187-209 | IsProjectionInner is Triangle2D's IsInner on the XY projections |
| Triangles3D.ProjectedGramSpec | Thriving.Geometry/3D/Triangle3D.cs:187-209 | the projected Gram determinant is the normal's Z squared, non-zero exactly for a triangle not standing vertical |
| Triangles3D.ProjectionInnerSpec | Thriving.Geometry/3D/Triangle3D.cs:187-209 | IsProjectionInner holds exactly when the XY weights are non-negative with sum at most 1, strictly so when edge is false |
| Triangles3D.ProjectionIgnoresHeight | Thriving.Geometry/3D/Triangle3D.cs:187-209 | moving a point vertically does not change IsProjectionInner |
| Triangles3D.ProjectedVertices | Thriving.Geometry/3D/Triangle3D.cs:187-209 | at each vertex IsProjectionInner answers the edge flag |
| Triangles3D.IntersectSpec | Thriving.Geometry/3D/Triangle3D.cs:109-131 | true exactly when a point comes out; that point is the plane's crossing of the segment, in the plane, coplanar, within the segment, and projecting into the triangle; a plane hit that is refused does not project into it |
| Triangles3D.FlatTriangleOrientation | Thriving.Geometry.Test/Triangle3DTest.cs:8-14 | the triangle (−1,0,0), (1,0,0), (0,1,0) is counter-clockwise with normal (0, 0, 2), perpendicular to the X axis |
| Triangles3D.FlatTriangleGram | Thriving.Geometry.Test/Triangle3DTest.cs:8-12 | its projected Gram determinant is 4 |
| Triangles3D.FlatTriangleInside | Thriving.Geometry.Test/Triangle3DTest.cs:16 | (0.5, 0.2, 0.2) projects inside it |
| Triangles3D.FlatTriangleAboveVertex | Thriving.Geometry.Test/Triangle3DTest.cs:18 | (−1, 0, 5) projects onto a vertex: inside with edges, outside without |
| Triangles3D.SlantedTriangleOrientation | Thriving.Geometry.Test/Triangle3DTest.cs:25-30 | the triangle (1,0,0), (0,1,0), (0,0,1) is counter-clockwise with normal (1, 1, 1) |
| Triangles3D.SlantedTriangleGram | Thriving.Geometry.Test/Triangle3DTest.cs:25-28 | its projected Gram determinant is 1 |
| Triangles3D.SlantedTriangleInside | Thriving.Geometry.Test/Triangle3DTest.cs:35 | (0.5, 0.2, 0.2) projects inside it |
| Triangles3D.SlantedTriangleOutside | Thriving.Geometry.Test/Triangle3DTest.cs:37 | (−1, 0, 5) projects outside it |
| Tetrahedra.Tetrahedron.Face | Thriving.Geometry/3D/Tetrahedron.cs:23-36 | a face exists exactly for indices 0 to 3, and is the triangle of the three vertices that index lists |
| Tetrahedra.FacesOmitOneVertex | Thriving.Geometry/3D/Tetrahedron.cs:23-36 | each face lists three distinct vertices and omits exactly one, a different one for each face |
| Tetrahedra.EachVertexOnThreeFaces | Thriving.Geometry/3D/Tetrahedron.cs:23-36 | each vertex lies on exactly the three faces that do not omit it |
| Tetrahedra.FacesFaceOutward | Thriving.Geometry/3D/Tetrahedron.cs:10-16 | the omitted vertex lies on the negative side of each face's normal by the tetrahedron's orientation, so for a positively oriented tetrahedron all face normals point outward (also lines 23-36) |
| Curves2D.EndPointsAgree | Thriving.Geometry/2D/BoundedCurve2D.cs:12-14 | the end point every curve reports is its true end, except on a fitted curve through more than two points, which reports its second control point instead of its last |
| Curves2D.TransformedEnds | Thriving.Geometry/2D/BoundedCurve2D.cs:16 | a transformed curve (arc, segment or fitted curve, affine frames) is still defined and affine, and its start and end points are the transform's images of the old ones |
| CurvePaths2D.CurvePath2D.constructor | Thriving.Geometry/2D/CurvePath2D.cs:13-16 | a new path holds no curves |
| CurvePaths2D.CurvePath2D.Append | Thriving.Geometry/2D/CurvePath2D.cs:27-45 | appending succeeds exactly when the path is empty or its last curve ends within 0.01 of the new curve's start, and then adds the curve at the end; otherwise InvalidOperationException and the path is unchanged; the path stays continuous |
| CurvePaths2D.CurvePath2D.IsClosed | Thriving.Geometry/2D/CurvePath2D.cs:51-60 | false for a path of fewer than two curves; otherwise true exactly when the first curve starts within 0.01 of where the last one ends (the end point a curve reports) |
| CurvePaths2D.CurvePath2D.CreateTransform | Thriving.Geometry/2D/CurvePath2D.cs:62-71 | succeeds exactly when the transformed curves form a continuous list, with a fresh path holding them in order; otherwise InvalidOperationException |
| CurvePaths2D.FromCurves | Thriving.Geometry/2D/CurvePath2D.cs:18-25 | building a path from a list succeeds exactly when the list is continuous, with a fresh path holding the list; otherwise InvalidOperationException |
| CurvePaths2D.ContinuousAppend | Thriving.Geometry/2D/CurvePath2D.cs:27-45 | appending a curve that starts where the last one ends keeps a list continuous |
| CurvePaths2D.TranslationKeepsDistance | Thriving.Geometry/2D/CurvePath2D.cs:62-71 | translating two points by the same vector keeps their distance |
| CurvePaths2D.TranslatedNear | Thriving.Geometry/2D/CurvePath2D.cs:32 | two points are within 0.01 of each other after a translation exactly when they were before |
| CurvePaths2D.TranslatedPath | Thriving.Geometry/2D/CurvePath2D.cs:62-71 | translating every curve of a continuous path keeps it continuous and keeps it closed or open, so CreateTransform with a translation never fails |
| CurvePaths2D.FittedPathRefusesContinuation | Thriving.Geometry/2D/CurvePath2D.cs:27-45 | a fitted curve through (0,0), (1,0), (2,0) followed by a curve starting at (2,0) is refused although the fitted curve's true end meets that start |
| CurvePaths2D.FittedEnds | Thriving.Geometry/2D/FittedCurve2D.cs:15-19 | that fitted curve reports (1,0) as its end while its last point is (2,0) |
| Extensions.IsContinuity | Thriving.Geometry/Extensions.cs:5-20 | true exactly when every segment ends within 0.01 of where the next one starts |
| Extensions.ShortListsContinuous | Thriving.Geometry/Extensions.cs:5-20 | lists of zero or one segment are continuous |
| Extensions.ContinuousConcat | Thriving.Geometry/Extensions.cs:5-20 | a list is continuous exactly when both halves are and the first half ends where the second starts |
| Extensions.OffsetCorners | Thriving.Geometry/Extensions.cs:28-52 | the loop yields one segment per consecutive pair, the first starting at the first start point offset along its side, each ending at the mitred corner after its input segment and each next one starting there; midPoint is the last corner, null when there is no pair |
| Extensions.CreateOffset | Thriving.Geometry/Extensions.cs:22-60 | as written: ArgumentException for a chain that is not continuous, InvalidOperationException for a chain of fewer than two segments, otherwise one offset segment per input segment, from the offset first start through the corners to the offset last end |
| Extensions.CreateOffsetCorrected | Thriving.Geometry/Extensions.cs:22-60 | the same offset chain, with a single segment offset like Segment3D.CreateOffset instead of raising |
| Extensions.SingleOffset | Thriving.Geometry/Extensions.cs:54-56 | the one-segment offset chain is Segment3D.CreateOffset of that segment |
| Extensions.OffsetEnds | Thriving.Geometry/Extensions.cs:35 | the offset chain starts and ends \|offset\| from the input chain's start and end, stepped at right angles to the first and last segments (also lines 54-56) |
| Extensions.SideStep | Thriving.Geometry/Extensions.cs:35 | a step by offset along a segment's side is perpendicular to it and \|offset\| long |
| Extensions.OffsetChainContinuous | Thriving.Geometry/Extensions.cs:22-60 | an offset chain passes IsContinuity itself |
| FittedCurves2D.ControlPointsSpec | Thriving.Geometry/2D/FittedCurve2D.cs:15-19 | the control points are the stored points moved by the frame, in order; the start point is the first of them and the (corrected) end point the last |
| FittedCurves2D.FromPointsSpec | Thriving.Geometry/2D/FittedCurve2D.cs:10-13 | a curve built from points has exactly those points as control points |
| FittedCurves2D.TransformedSpec | Thriving.Geometry/2D/FittedCurve2D.cs:21-28 | the transformed curve keeps the stored points and maps every control point, and so the start and both end points, by the transform |
| FittedCurves2D.ReversedSpec | Thriving.Geometry/2D/FittedCurve2D.cs:30-37 | the reversed curve has the control points in reverse order, swaps the start and the (corrected) end point, and reversing twice gives the curve back |
| FittedCurves2D.EndPointAsWrittenIsNotLast | Thriving.Geometry/2D/FittedCurve2D.cs:19 | for three distinct points the reported end point is the second point, while the reversed curve starts at the third (also lines 30-37) |
| FittedCurves2D.FittedCurve2D.CreateOffset | Thriving.Geometry/2D/FittedCurve2D.cs:39-42 | offsetting a fitted curve always fails with NotImplementedException |
| FittedCurves3D.BezierKeepsNothing | Thriving.Geometry/3D/FittedCurve3D.cs:30-32 | the Bezier constructor keeps nothing of its points: any two lists give the same curve |
| FittedCurves3D.EndsSpec | Thriving.Geometry/3D/FittedCurve3D.cs:14-16 | the start and end points are the first and last stored points, the zero point when there are none, the same point when there is one |
| FittedCurves3D.ControlPointsSpec | Thriving.Geometry/3D/FittedCurve3D.cs:7-12 | a curve built from points has exactly those points as control points |
| FittedCurves3D.TransformedSpec | Thriving.Geometry/3D/FittedCurve3D.cs:18-22 | the transformed curve has each stored point moved by the transform, in order, in the identity frame, so its start and end points are the moved ones |
| Slopes.FromHeightAndWidth | Thriving.Geometry/Slope.cs:14-17 | the slope's value times the height is the width |
| Slopes.CreatePercent | Thriving.Geometry/Slope.cs:31-34 | the slope's value times the percentage is 100 |
| Slopes.WidthHeightInverse | Thriving.Geometry/Slope.cs:86-89 | width by height and height by width undo each other (also lines 127-130) |
| Slopes.LengthPositive | Thriving.Geometry/Slope.cs:53 | the length sqrt(1 + value²) is positive and squares to value² + 1 |
| Slopes.LengthByHeightSpec | Thriving.Geometry/Slope.cs:106-109 | the length along the slope from a height is \|height\| times the unit length |
| Slopes.LengthRoundTrip | Thriving.Geometry/Slope.cs:96-99 | from a non-negative height, the length converts back to the same height and to the width of that height (also lines 106-109, 137-140) |
| Slopes.LengthByWidthSpec | Thriving.Geometry/Slope.cs:116-119 | the length from a width is the length from the height of that width |
| Slopes.HeightAndWidthSpec | Thriving.Geometry/Slope.cs:14-17 | the slope built from a height and a width converts that height to that width and back (also lines 86-89, 127-130) |
| Slopes.DirectionNormalSpec | Thriving.Geometry/Slope.cs:65-68 | for orthonormal axes the direction and the normal are unit vectors perpendicular to each other, along value·x + y and value·y − x (also lines 76-79) |

## Left out

- IEEE-754 behaviour: NaN and infinities, rounding. Every division by a determinant, a length or a coefficient is a precondition that the divisor is non-zero.
- The elementary functions are uninterpreted beyond the facts `Lawful` states; statements whose truth depends on more (exact angle sums equal to 2π, the values of tangent and arc tangent) are not made.
- Index-out-of-range exceptions of the matrix indexer and of list access are preconditions (indices in range), not `Failure` results.
- Matrices.Cofactor and Matrices.Matrix.GetCofactor: require at least one row and one column; the exception the source raises when asked for a cofactor of an empty matrix is not modelled.
- FittedCurves2D.FittedCurve2D.StartPoint: requires at least one point; the source's ArgumentOutOfRangeException on an empty list is not modelled.
- Curves2D.Curve2D.Defined: a fitted curve in a path must have at least two points, since its reported end point reads index 1; the exception for shorter lists is not modelled.
- Triangles3D.Triangle3D.Intersect: requires a non-zero projected Gram determinant when the plane meets the segment; for a triangle standing in a vertical plane the source divides by zero and its NaN comparisons make it answer false, which the model does not follow.
- Segments2D.Segment2D.Intersect: built on `Lines2D.Line2D.Intersect`, which is exact; the source's division by zero when 0 < |B| < tolerance against a vertical line (see Findings) is not carried into segments.
- Segments2D.ExtendSpec and Segments2D.IntersectFindsCrossing: stated for a segment in the identity frame only.
- Segments2D.Segment2D.GetVerticalLine and the `Slope` conversions: their divisions are preconditions.
- Extensions.CreateOffset and Extensions.CreateOffsetCorrected: the mitred corners are stated by the source's own formula (`Corner`: the end point moved by offset / cos(half the angle between the directions) along the normalised difference of the two directions); that a corner lies |offset| from both adjacent input segments, and that each output segment is parallel to its input, is not proved. Only the first start and the last end are proved to lie |offset| away at right angles (`OffsetEnds`).
- Slopes.CreateAngle and Slope.Angle: defined through `math.Tan` and `math.Atan`; nothing is proved about them, since `Lawful` has no facts about those functions.
- Transform3D.CreateRotation and CreateRotationAtPoint (Rodrigues' formula, Transform3D.cs:102-143) and Transform3D.CreateReflection(Plane3D) (Transform3D.cs:175-186) are not modelled: they rest on trigonometric identities and on a plane reflection matrix the uninterpreted functions cannot check.
- Vector2D.CcwAngleTo and Vector3D.CcwAngleTo are not modelled: they branch on exact angle values of the trigonometric functions.
- Arc2D.GetTangentVector (Arc2D.cs:166-172) is not modelled: no other operation uses it.
- The process-wide mutable tolerance and `UseTolerance` (GeometryUtility.cs): the tolerance is a constant, and the concurrency of changing it is out of scope.
- Data holders without logic (BBox2D/3D, Sphere, Ray2D/3D, Direction2D/3D), `ToString`, the struct layout, and the enumerator of `CurvePath2D` (CurvePath2D.cs:73-81).
- The abstract classes BoundedCurve2D/3D are not classes here: a plane curve is the datatype `Curve2D` with one case per subclass, and only the members a curve path uses (start point, end point, CreateTransformed) are dispatched.
- There is no corrected `CurvePath2D`: the path model follows the code and compares the end point a fitted curve reports; `Curve2D.CorrectedEndPoint` and `FittedPathRefusesContinuation` show what the true end point would change.

## Findings

| source | as written | input that shows it | evidently intended | confidence | as-written member | corrected member |
|---|---|---|---|---|---|---|
| Thriving.Geometry/2D/Transform2D.cs:161-167 | the general-axis `CreateReflection` builds a frame that is not a reflection in the axis | axis (0, −1): the point (0, 1), on the axis, goes to (0, −1) | points on the axis stay fixed and the normal is negated | high; not executed | Transforms2D.ReflectionMovesAxisPoint | Transforms2D.MirrorFixesAxis |
| Thriving.Geometry/2D/Line2D.cs:186-193 | when 0 < \|B\| < tolerance the ordinate is taken from the other line by dividing by its B, even when the other line is vertical | 1·x + 1e-10·y = 0 against x = 1: not parallel, divisor 0 | the crossing point of the two lines | high; not executed | Lines2D.IntersectDividesByZero | Lines2D.IntersectSpec |
| Thriving.Geometry/3D/Line3D.cs:36-48 | `Projection` subtracts d·direction from the point instead of moving it to the line; `Circle3D.Intersect` (Circle3D.cs:56) builds its coplanar hits on it | x-axis and the point (0, 1, 0): the result (−1, 1, 0) is off the line | the foot of the perpendicular (0, 0, 0) at distance 1 | high; not executed | Lines3D.ProjectionStaysOffLine | Lines3D.FootOfPerpendicularSpec |
| Thriving.Geometry/2D/FittedCurve2D.cs:19 | `EndPoint` is control point 1 | points (0,0), (1,0), (2,0): the end point is (1,0), and a path refuses a curve starting at (2,0) | the last control point | high; not executed | FittedCurves2D.EndPointAsWrittenIsNotLast | FittedCurves2D.ReversedSpec |
| Thriving.Geometry/Extensions.cs:57 | the last segment starts at `midPoint.Value`, which is null for a one-segment chain | one continuous segment: InvalidOperationException | the single segment offset like Segment3D.CreateOffset | medium; not executed | Extensions.CreateOffset | Extensions.SingleOffset |
| Thriving.Geometry/Matrix.cs:140 | `operator +` (and `operator -`, line 161) throws when the row counts are equal | two 2×2 zero matrices: InvalidOperationException | throw when the row counts differ | high; not executed | Matrices.SameSizeSumRefused | Matrices.CorrectedSumSpec |
| Thriving.Geometry/Matrix.cs:174 | `operator -` adds the entries | [1] − column (1, 0) gives [2] | entrywise difference | high; not executed | Matrices.DifferenceAdds | Matrices.CorrectedDifferenceSpec |
