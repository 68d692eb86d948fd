/**
 * Real arithmetic used by the geometry: the global tolerance and the elementary
 * functions of System.Math.
 *
 * `double` is modelled by `real`. Square root, the trigonometric functions and
 * pi are not definable by Dafny expressions, so they are passed around as a
 * `MathLib` record; `Lawful` lists the few facts about them the proofs rely on.
 * Each of those facts holds of the true functions, so every theorem holds for
 * the real square root, sine, cosine and arc cosine.
 */
module RealMath {
  /** GeometryUtility's tolerance (1e-9). */
  const Tolerance: real := 0.000000001

  function Abs(x: real): real { if x < 0.0 then -x else x }

  function Max(a: real, b: real): real { if a < b then b else a }

  /**
   * `Math.Pow(-1, k) * x` for a natural exponent: `x` itself for even `k` and
   * its negation for odd `k` (multiplying by plus or minus one is exact).
   */
  function Signed(k: nat, x: real): real
  {
    if k % 2 == 0 then x else -x
  }

  /** The members of System.Math the library calls. */
  datatype MathLib = MathLib(
    Sqrt: real -> real,
    Sin: real -> real,
    Cos: real -> real,
    Tan: real -> real,
    Acos: real -> real,
    Atan: real -> real,
    PI: real)

  /** Facts every honest implementation of `MathLib` satisfies. */
  ghost predicate Lawful(math: MathLib)
  {
    && (forall x :: 0.0 <= x ==> 0.0 <= math.Sqrt(x) && math.Sqrt(x) * math.Sqrt(x) == x)
    && (forall a :: math.Sin(a) * math.Sin(a) + math.Cos(a) * math.Cos(a) == 1.0)
    && math.Sin(0.0) == 0.0 && math.Cos(0.0) == 1.0
    && (forall a, b :: a + b == 0.0 ==> math.Cos(a) == math.Cos(b))
    && (forall x :: -1.0 <= x <= 1.0 ==> 0.0 <= math.Acos(x) <= math.PI)
    && math.Acos(1.0) == 0.0
    && (forall x :: -1.0 <= x <= 1.0 ==> math.Cos(math.Acos(x)) == x)
    && math.Sin(math.PI) == 0.0
    && (forall a :: 0.0 <= a <= math.PI ==> 0.0 <= math.Sin(a))
    && 3.14 < math.PI < 3.15
  }

  // ---------------------------------------------------------------- arithmetic helpers
  // Sign facts about products are stated on `Mul` and `SquareSum` terms: the
  // solver keeps those as atoms, while a raw comparison such as `0.0 < x * x`
  // is rewritten and then no longer links to other occurrences of `x * x`.

  function Mul(a: real, b: real): real { a * b }

  function SquareSum2(x: real, y: real): real { x * x + y * y }

  function SquareSum3(x: real, y: real, z: real): real { x * x + y * y + z * z }

  lemma MulPositive(a: real, b: real)
    requires 0.0 < a && 0.0 < b
    ensures 0.0 < Mul(a, b)
  {
  }

  lemma MulNonNegative(a: real, b: real)
    requires 0.0 <= a && 0.0 <= b
    ensures 0.0 <= Mul(a, b)
  {
  }

  /** A square is non-negative, and positive away from zero. */
  lemma SquareNonNegative(x: real)
    ensures 0.0 <= Mul(x, x)
    ensures x != 0.0 ==> 0.0 < Mul(x, x)
  {
    if x > 0.0 {
      MulPositive(x, x);
    } else if x < 0.0 {
      MulPositive(-x, -x);
      assert Mul(-x, -x) == Mul(x, x);
    } else {
      assert Mul(x, x) == 0.0;
    }
  }

  /** A sum of two squares is non-negative, and positive unless both terms vanish. */
  lemma SumOfSquares2(x: real, y: real)
    ensures 0.0 <= SquareSum2(x, y)
    ensures x != 0.0 || y != 0.0 ==> 0.0 < SquareSum2(x, y)
  {
    SquareNonNegative(x);
    SquareNonNegative(y);
  }

  /** A sum of three squares is non-negative, and positive unless all terms vanish. */
  lemma SumOfSquares3(x: real, y: real, z: real)
    ensures 0.0 <= SquareSum3(x, y, z)
    ensures x != 0.0 || y != 0.0 || z != 0.0 ==> 0.0 < SquareSum3(x, y, z)
  {
    SquareNonNegative(x);
    SquareNonNegative(y);
    SquareNonNegative(z);
  }

  lemma DivSelf(d: real)
    requires d != 0.0
    ensures d / d == 1.0
  {
  }

  /** Multiplying a quotient by its divisor gives back the dividend. */
  lemma DivMul(n: real, d: real)
    requires d != 0.0
    ensures (n / d) * d == n && d * (n / d) == n
  {
  }

  /** The quotient is the unique solution of `z * y == x`. */
  lemma DivUnique(x: real, y: real, z: real)
    requires y != 0.0 && z * y == x
    ensures x / y == z
  {
  }

  /** A product with a non-zero factor vanishes only when the other factor does. */
  lemma ZeroFactor(a: real, x: real)
    requires a != 0.0 && a * x == 0.0
    ensures x == 0.0
  {
    DivUnique(0.0, a, x);
  }

  /** Multiplying both sides of an equation by the same factor. */
  lemma MulEqual(a: real, b: real, c: real)
    requires b == c
    ensures a * b == a * c
  {
  }

  lemma DivAdd(a: real, b: real, d: real)
    requires d != 0.0
    ensures a / d + b / d == (a + b) / d
  {
    DivMul(a, d);
    DivMul(b, d);
    DivUnique(a + b, d, a / d + b / d);
  }

  lemma MulDiv(a: real, b: real, d: real)
    requires d != 0.0
    ensures a * (b / d) == (a * b) / d
  {
    DivMul(b, d);
    assert a * (b / d) * d == a * ((b / d) * d);
    DivUnique(a * b, d, a * (b / d));
  }

  /** Dividing is multiplying by the reciprocal, stated on the `Mul` atom. */
  lemma DivAsMul(a: real, d: real)
    requires d != 0.0
    ensures a / d == Mul(1.0 / d, a)
  {
    DivScale(a, d);
  }

  lemma DivScale(a: real, d: real)
    requires d != 0.0
    ensures a / d == (1.0 / d) * a
  {
    DivMul(a, d);
    DivMul(1.0, d);
    assert (1.0 / d) * a * d == ((1.0 / d) * d) * a;
    DivUnique(a, d, (1.0 / d) * a);
  }

  lemma DivPositive(a: real, b: real)
    requires 0.0 < a && 0.0 < b
    ensures 0.0 < a / b
  {
    DivMul(a, b);
  }

  /** The unit vector obtained by dividing by a length whose square is the squared norm. */
  lemma UnitAfterDivision2(x: real, y: real, l: real)
    requires l != 0.0 && l * l == x * x + y * y
    ensures (x / l) * (x / l) + (y / l) * (y / l) == 1.0
  {
    DivSquare(x, l);
    DivSquare(y, l);
    SquareNonNegative(l);
    DivAdd(x * x, y * y, l * l);
    DivSelf(l * l);
  }

  /** The three-dimensional counterpart of `UnitAfterDivision2`. */
  lemma UnitAfterDivision3(x: real, y: real, z: real, l: real)
    requires l != 0.0 && l * l == x * x + y * y + z * z
    ensures (x / l) * (x / l) + (y / l) * (y / l) + (z / l) * (z / l) == 1.0
  {
    DivSquare(x, l);
    DivSquare(y, l);
    DivSquare(z, l);
    SquareNonNegative(l);
    DivAdd(x * x, y * y, l * l);
    DivAdd(x * x + y * y, z * z, l * l);
    DivSelf(l * l);
  }

  /** Squaring commutes with division. */
  lemma DivSquare(a: real, l: real)
    requires l != 0.0
    ensures (a / l) * (a / l) == (a * a) / (l * l)
  {
    var q := a / l;
    SquareNonNegative(l);
    DivMul(a, l);
    assert (q * q) * (l * l) == (q * l) * (q * l);
    DivUnique(a * a, l * l, q * q);
  }

  // ---------------------------------------------------------------- square root

  /** Two non-negative numbers with the same square are equal. */
  lemma SquareRootUnique(s: real, t: real)
    requires 0.0 <= s && 0.0 <= t && s * s == t * t
    ensures s == t
  {
    if s < t {
      SquareStrictlyIncreasing(s, t);
    } else if t < s {
      SquareStrictlyIncreasing(t, s);
    }
  }

  /** Squaring is strictly increasing on the non-negative reals. */
  lemma SquareStrictlyIncreasing(s: real, t: real)
    requires 0.0 <= s < t
    ensures s * s < t * t
  {
    MulNonNegative(s, t - s);
    MulPositive(t - s, t);
  }

  /** The square root of a square is the absolute value. */
  lemma SqrtOfSquare(math: MathLib, x: real)
    requires Lawful(math)
    ensures math.Sqrt(x * x) == Abs(x)
  {
    SquareNonNegative(x);
    SquareRootUnique(math.Sqrt(x * x), Abs(x));
  }

  /** The square root of the square of a non-negative number is the number. */
  lemma SqrtOfNonNegativeSquare(math: MathLib, x: real)
    requires Lawful(math) && 0.0 <= x
    ensures math.Sqrt(x * x) == x
  {
    SqrtOfSquare(math, x);
  }

  lemma SqrtZero(math: MathLib)
    requires Lawful(math)
    ensures math.Sqrt(0.0) == 0.0
  {
    SqrtOfSquare(math, 0.0);
  }

  lemma SqrtOne(math: MathLib)
    requires Lawful(math)
    ensures math.Sqrt(1.0) == 1.0
  {
    SqrtOfSquare(math, 1.0);
  }

  /** The square root of a positive number is positive. */
  lemma SqrtPositive(math: MathLib, x: real)
    requires Lawful(math) && 0.0 < x
    ensures 0.0 < math.Sqrt(x)
  {
  }

  /** A square root is zero exactly when its argument is. */
  lemma SqrtZeroIff(math: MathLib, x: real)
    requires Lawful(math) && 0.0 <= x
    ensures math.Sqrt(x) == 0.0 <==> x == 0.0
  {
    if x == 0.0 { SqrtZero(math); } else { SqrtPositive(math, x); }
  }

  /** sqrt(k^2 * x) == |k| * sqrt(x). */
  lemma SqrtScale(math: MathLib, k: real, x: real)
    requires Lawful(math) && 0.0 <= x
    ensures math.Sqrt(k * k * x) == Abs(k) * math.Sqrt(x)
  {
    var s := math.Sqrt(x);
    MulNonNegative(Abs(k), s);
    SquareNonNegative(k);
    MulNonNegative(k * k, x);
    SquareRootUnique(math.Sqrt(k * k * x), Abs(k) * s);
  }

  /** The square root is strictly increasing. */
  lemma SqrtMonotonic(math: MathLib, x: real, y: real)
    requires Lawful(math) && 0.0 <= x < y
    ensures math.Sqrt(x) < math.Sqrt(y)
  {
    var s, t := math.Sqrt(x), math.Sqrt(y);
    if t < s {
      SquareStrictlyIncreasing(t, s);
    }
  }

  /** Half the chord at distance d from the centre of a circle of radius r: sqrt(r^2 - d^2). */
  function HalfChord(r: real, d: real, math: MathLib): real { math.Sqrt(r * r - d * d) }

  /** For |d| < r, half the chord is non-negative, d^2 plus its square (of either sign) is r^2, and r is positive. */
  lemma HalfChordSpec(r: real, d: real, math: MathLib)
    requires Lawful(math) && Abs(d) < r
    ensures HalfChord(r, d, math) >= 0.0
    ensures d * d + HalfChord(r, d, math) * HalfChord(r, d, math) == r * r
    ensures d * d + (-HalfChord(r, d, math)) * (-HalfChord(r, d, math)) == r * r
    ensures r > 0.0
  {
    SquareStrictlyIncreasing(Abs(d), r);
    assert Abs(d) * Abs(d) == d * d;
  }
}
