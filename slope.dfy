/**
 * Slope: the ratio of the horizontal width of a slope to its vertical
 * height, independent of units, and the conversions between height, width
 * and length along the slope that it gives.
 */
module Slopes {
  import opened RealMath
  import opened Primitives3D

  /** `Value`: the horizontal width for a unit height. */
  datatype Slope = Slope(Value: real)
  {
    /** The length along the slope for a unit height. */
    function Length(math: MathLib): real
    {
      math.Sqrt(Mul(Value, Value) + 1.0)
    }

    /** The angle of the slope line from the vertical. */
    function Angle(math: MathLib): real
    {
      math.Atan(Value)
    }

    /** The unit direction of the slope line in the plane of `xAxis` (horizontal) and `yAxis` (vertical). */
    function GetDirection(xAxis: Vector3D, yAxis: Vector3D, math: MathLib): Vector3D
      requires Vector3D.Times(Value, xAxis).Plus(yAxis).Length(math) != 0.0
    {
      Vector3D.Times(Value, xAxis).Plus(yAxis).Normalize(math)
    }

    /** The unit normal of the slope line in the plane of `xAxis` and `yAxis`. */
    function GetNormal(xAxis: Vector3D, yAxis: Vector3D, math: MathLib): Vector3D
      requires Vector3D.Times(Value, yAxis).Minus(xAxis).Length(math) != 0.0
    {
      Vector3D.Times(Value, yAxis).Minus(xAxis).Normalize(math)
    }

    function GetWidthByHeight(height: real): real
    {
      height * Value
    }

    function GetWidthByLength(length: real, math: MathLib): real
      requires math.Sqrt(1.0 + Mul(Value, Value)) != 0.0
    {
      length * Value / math.Sqrt(1.0 + Mul(Value, Value))
    }

    function GetLengthByHeight(height: real, math: MathLib): real
    {
      math.Sqrt(SquareSum2(Mul(height, Value), height))
    }

    function GetLengthByWidth(width: real, math: MathLib): real
      requires Value != 0.0
    {
      math.Sqrt(SquareSum2(width / Value, width))
    }

    function GetHeightByWidth(width: real): real
      requires Value != 0.0
    {
      width / Value
    }

    function GetHeightByLength(length: real, math: MathLib): real
      requires math.Sqrt(1.0 + Mul(Value, Value)) != 0.0
    {
      length / math.Sqrt(1.0 + Mul(Value, Value))
    }
  }

  /** The constructor from a height and a width: the width per unit height. */
  function FromHeightAndWidth(height: real, width: real): (r: Slope)
    requires height != 0.0
    ensures r.Value * height == width
  {
    Slope(width / height)
  }

  /** A slope given as a percentage: `value` units of height per 100 of width. */
  function CreatePercent(value: real): (r: Slope)
    requires value != 0.0
    ensures r.Value * value == 100.0
  {
    FromHeightAndWidth(value, 100.0)
  }

  /** A slope given by the tangent of its angle. */
  function CreateAngle(angle: real, math: MathLib): Slope
  {
    Slope(math.Tan(angle))
  }

  // ---------------------------------------------------------------- conversions

  /** Width by height and height by width undo each other. */
  lemma WidthHeightInverse(slope: Slope, height: real, width: real)
    requires slope.Value != 0.0
    ensures slope.GetHeightByWidth(slope.GetWidthByHeight(height)) == height
    ensures slope.GetWidthByHeight(slope.GetHeightByWidth(width)) == width
  {
    DivMul(width, slope.Value);
  }

  /** The square root of 1 + Value^2 is the slope's length, which is positive. */
  lemma LengthPositive(slope: Slope, math: MathLib)
    requires Lawful(math)
    ensures math.Sqrt(1.0 + Mul(slope.Value, slope.Value)) == slope.Length(math)
    ensures slope.Length(math) > 0.0
    ensures slope.Length(math) * slope.Length(math) == slope.Value * slope.Value + 1.0
  {
    var v := slope.Value;
    SquareNonNegative(v);
    assert Mul(v, v) + 1.0 == 1.0 + Mul(v, v) == v * v + 1.0;
    SqrtPositive(math, Mul(v, v) + 1.0);
  }

  /** The algebra of LengthByHeight: h^2 (V^2 + 1) factors out of the sum of squares. */
  lemma HeightFactor(h: real, v: real)
    ensures SquareSum2(Mul(h, v), h) == h * h * (v * v + 1.0)
  {
  }

  /** (|h| l)^2 = h^2 l^2. */
  lemma AbsScaleSquare(h: real, l: real, s: real)
    requires l * l == s
    ensures (Abs(h) * l) * (Abs(h) * l) == h * h * s
  {
  }

  /** The square root s of h^2 V^2 + h^2 is |h| l when l is the root of V^2 + 1. */
  lemma LengthByHeightAlgebra(h: real, v: real, s: real, l: real)
    requires 0.0 <= s && s * s == SquareSum2(Mul(h, v), h)
    requires 0.0 < l && l * l == v * v + 1.0
    ensures s == Abs(h) * l
    ensures s * s == h * h * (v * v + 1.0)
  {
    HeightFactor(h, v);
    AbsScaleSquare(h, l, v * v + 1.0);
    MulNonNegative(Abs(h), l);
    SquareRootUnique(s, Abs(h) * l);
  }

  /**
   * The length along the slope is the height times the unit length, so its
   * square is h^2 (Value^2 + 1).
   */
  lemma LengthByHeightSpec(slope: Slope, height: real, math: MathLib)
    requires Lawful(math)
    ensures slope.GetLengthByHeight(height, math) == Abs(height) * slope.Length(math)
    ensures slope.GetLengthByHeight(height, math) * slope.GetLengthByHeight(height, math)
         == height * height * (slope.Value * slope.Value + 1.0)
  {
    SumOfSquares2(Mul(height, slope.Value), height);
    LengthPositive(slope, math);
    LengthByHeightAlgebra(height, slope.Value, slope.GetLengthByHeight(height, math), slope.Length(math));
  }

  /** The quotient algebra of the length round trip: a length h l converts back to h and to the width h V. */
  lemma RoundTripAlgebra(slope: Slope, h: real, l: real, len: real, math: MathLib)
    requires l > 0.0 && math.Sqrt(1.0 + Mul(slope.Value, slope.Value)) == l && len == h * l
    ensures slope.GetHeightByLength(len, math) == h
    ensures slope.GetWidthByLength(len, math) == slope.GetWidthByHeight(h)
  {
    DivUnique(len, l, h);
    var v := slope.Value;
    assert len * v == (h * v) * l;
    DivUnique(len * v, l, h * v);
  }

  /**
   * From a non-negative height, the length along the slope converts back to
   * the same height, and to the width of that height.
   */
  lemma LengthRoundTrip(slope: Slope, height: real, math: MathLib)
    requires Lawful(math) && height >= 0.0
    ensures math.Sqrt(1.0 + Mul(slope.Value, slope.Value)) != 0.0
    ensures slope.GetHeightByLength(slope.GetLengthByHeight(height, math), math) == height
    ensures slope.GetWidthByLength(slope.GetLengthByHeight(height, math), math) == slope.GetWidthByHeight(height)
  {
    LengthPositive(slope, math);
    LengthByHeightSpec(slope, height, math);
    RoundTripAlgebra(slope, height, slope.Length(math), slope.GetLengthByHeight(height, math), math);
  }

  /** The quotient algebra of LengthByWidth: the height w / V of width w gives back w. */
  lemma WidthFactor(w: real, v: real, h: real)
    requires v != 0.0 && h == w / v
    ensures SquareSum2(Mul(h, v), h) == SquareSum2(w / v, w)
  {
    DivMul(w, v);
  }

  /** The length along the slope from a width is the length from the height of that width. */
  lemma LengthByWidthSpec(slope: Slope, width: real, math: MathLib)
    requires slope.Value != 0.0
    ensures slope.GetLengthByWidth(width, math) == slope.GetLengthByHeight(slope.GetHeightByWidth(width), math)
  {
    WidthFactor(width, slope.Value, slope.GetHeightByWidth(width));
  }

  /** The slope built from a height and a width converts that height to that width and back. */
  lemma HeightAndWidthSpec(height: real, width: real)
    requires height != 0.0 && width != 0.0
    ensures FromHeightAndWidth(height, width).GetWidthByHeight(height) == width
    ensures FromHeightAndWidth(height, width).GetHeightByWidth(width) == height
  {
    var slope := FromHeightAndWidth(height, width);
    assert slope.Value != 0.0;
    WidthHeightInverse(slope, height, width);
  }

  // ---------------------------------------------------------------- direction and normal

  /** V a + b dotted with w, on the left. */
  lemma CombinationDotLeft(v: real, a: Vector3D, b: Vector3D, w: Vector3D)
    ensures Vector3D.Times(v, a).Plus(b).DotProduct(w) == v * a.DotProduct(w) + b.DotProduct(w)
  {
  }

  /** V a + b dotted with w, on the right. */
  lemma CombinationDotRight(v: real, a: Vector3D, b: Vector3D, w: Vector3D)
    ensures w.DotProduct(Vector3D.Times(v, a).Plus(b)) == v * w.DotProduct(a) + w.DotProduct(b)
  {
  }

  /** V a - b dotted with w, on the left. */
  lemma DifferenceDotLeft(v: real, a: Vector3D, b: Vector3D, w: Vector3D)
    ensures Vector3D.Times(v, a).Minus(b).DotProduct(w) == v * a.DotProduct(w) - b.DotProduct(w)
  {
  }

  /** V a - b dotted with w, on the right. */
  lemma DifferenceDotRight(v: real, a: Vector3D, b: Vector3D, w: Vector3D)
    ensures w.DotProduct(Vector3D.Times(v, a).Minus(b)) == v * w.DotProduct(a) - w.DotProduct(b)
  {
  }

  /** For orthonormal axes, the combinations V x + y and V y - x are perpendicular, each of square length V^2 + 1. */
  lemma CombinationAlgebra(v: real, x: Vector3D, y: Vector3D)
    requires x.DotProduct(x) == 1.0 && y.DotProduct(y) == 1.0 && x.DotProduct(y) == 0.0
    ensures Vector3D.Times(v, x).Plus(y).DotProduct(Vector3D.Times(v, y).Minus(x)) == 0.0
    ensures Vector3D.Times(v, x).Plus(y).SquareLength() == v * v + 1.0
    ensures Vector3D.Times(v, y).Minus(x).SquareLength() == v * v + 1.0
  {
    var d, n := Vector3D.Times(v, x).Plus(y), Vector3D.Times(v, y).Minus(x);
    DotProductProperties(x, y);
    DotProductProperties(d, d);
    DotProductProperties(n, n);
    DifferenceDotRight(v, y, x, x);
    DifferenceDotRight(v, y, x, y);
    CombinationDotLeft(v, x, y, n);
    assert d.DotProduct(n) == v * -1.0 + v;
    CombinationDotRight(v, x, y, x);
    CombinationDotRight(v, x, y, y);
    CombinationDotLeft(v, x, y, d);
    assert d.DotProduct(d) == v * v + 1.0;
    DifferenceDotLeft(v, y, x, n);
    assert n.DotProduct(n) == v * v - -1.0;
  }

  /** Dividing two perpendicular vectors by non-zero numbers keeps them perpendicular. */
  lemma DividedPerpendicular(u: Vector3D, w: Vector3D, l: real, m: real)
    requires l != 0.0 && m != 0.0 && u.DotProduct(w) == 0.0
    ensures Vector3D(u.X / l, u.Y / l, u.Z / l).DotProduct(Vector3D(w.X / m, w.Y / m, w.Z / m)) == 0.0
  {
    assert Vector3D(u.X / l, u.Y / l, u.Z / l).DotProduct(Vector3D(w.X / m, w.Y / m, w.Z / m))
        == u.DotProduct(w) / (l * m);
  }

  /**
   * For orthonormal axes the direction and the normal exist, are unit
   * vectors, are perpendicular, and the slope's length scales them back to
   * V x + y and V y - x.
   */
  lemma DirectionNormalSpec(slope: Slope, xAxis: Vector3D, yAxis: Vector3D, math: MathLib)
    requires Lawful(math)
    requires xAxis.DotProduct(xAxis) == 1.0 && yAxis.DotProduct(yAxis) == 1.0 && xAxis.DotProduct(yAxis) == 0.0
    ensures Vector3D.Times(slope.Value, xAxis).Plus(yAxis).Length(math) == slope.Length(math)
    ensures Vector3D.Times(slope.Value, yAxis).Minus(xAxis).Length(math) == slope.Length(math)
    ensures slope.Length(math) != 0.0
    ensures slope.GetDirection(xAxis, yAxis, math).Length(math) == 1.0
    ensures slope.GetNormal(xAxis, yAxis, math).Length(math) == 1.0
    ensures slope.GetDirection(xAxis, yAxis, math).Scaled(slope.Length(math)) == Vector3D.Times(slope.Value, xAxis).Plus(yAxis)
    ensures slope.GetNormal(xAxis, yAxis, math).Scaled(slope.Length(math)) == Vector3D.Times(slope.Value, yAxis).Minus(xAxis)
    ensures slope.GetDirection(xAxis, yAxis, math).DotProduct(slope.GetNormal(xAxis, yAxis, math)) == 0.0
  {
    var d := Vector3D.Times(slope.Value, xAxis).Plus(yAxis);
    var n := Vector3D.Times(slope.Value, yAxis).Minus(xAxis);
    CombinationAlgebra(slope.Value, xAxis, yAxis);
    LengthPositive(slope, math);
    assert d.SquareLength() == Mul(slope.Value, slope.Value) + 1.0;
    assert n.SquareLength() == Mul(slope.Value, slope.Value) + 1.0;
    assert d != Vector3D.Zero() by {
      ZeroLength(math);
    }
    assert n != Vector3D.Zero() by {
      ZeroLength(math);
    }
    NormalizeIsUnit(d, math);
    NormalizeIsUnit(n, math);
    DividedPerpendicular(d, n, d.Length(math), n.Length(math));
  }
}
