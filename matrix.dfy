/**
 * The dense matrix of the library: a class over a two-dimensional array, whose
 * operations fill fresh result arrays with nested loops, proved against pure
 * functions on `Mat`, the value a matrix holds.
 */
module Matrices {
  import opened RealMath
  import opened Results

  // ---------------------------------------------------------------- values

  /** The value of a matrix: its dimensions and its rows (kept even when there are no rows). */
  datatype Mat = Mat(rows: nat, cols: nat, cells: seq<seq<real>>)
  {
    predicate Valid()
    {
      |cells| == rows && forall i :: 0 <= i < |cells| ==> |cells[i]| == cols
    }

    function At(i: nat, j: nat): real
      requires Valid() && i < rows && j < cols
    {
      cells[i][j]
    }
  }

  /** A fresh matrix of the given size: every entry is 0. */
  function Zeros(rows: nat, cols: nat): (r: Mat)
    ensures r.Valid() && r.rows == rows && r.cols == cols
    ensures forall i, j :: 0 <= i < rows && 0 <= j < cols ==> r.At(i, j) == 0.0
  {
    Mat(rows, cols, seq(rows, i => seq(cols, j => 0.0)))
  }

  function Identity(n: nat): (r: Mat)
    ensures r.Valid() && r.rows == n && r.cols == n
  {
    Mat(n, n, seq(n, i => seq(n, j => if i == j then 1.0 else 0.0)))
  }

  /** Rows and columns swapped. */
  function Transpose(m: Mat): (r: Mat)
    requires m.Valid()
    ensures r.Valid() && r.rows == m.cols && r.cols == m.rows
  {
    Mat(m.cols, m.rows,
      seq(m.cols, i requires 0 <= i < m.cols =>
        seq(m.rows, j requires 0 <= j < m.rows => m.cells[j][i])))
  }

  /** The matrix without row `r` and column `c`; the source cannot allocate it for an empty matrix. */
  function Cofactor(m: Mat, r: int, c: int): (res: Mat)
    requires m.Valid() && 1 <= m.rows && 1 <= m.cols
    ensures res.Valid() && res.rows == m.rows - 1 && res.cols == m.cols - 1
  {
    Mat(m.rows - 1, m.cols - 1,
      seq(m.rows - 1, i requires 0 <= i < m.rows - 1 =>
        seq(m.cols - 1, j requires 0 <= j < m.cols - 1 =>
          m.cells[Skip(i, r)][Skip(j, c)])))
  }

  /** Index i of a cofactor reads index i of the original before the removed index k, and i + 1 from it on. */
  function Skip(i: int, k: int): int
  {
    if i < k then i else i + 1
  }

  /**
   * The sizes whose determinant the source computes without failing: a 1-row
   * matrix reads entry (0, 0), any other size expands along row 0 into
   * cofactors one size smaller, which cannot be allocated from an empty matrix.
   */
  predicate DetDefined(rows: nat, cols: nat)
  {
    (rows <= cols && (rows == 0 ==> cols == 0)) || rows >= cols + 2
  }

  /** DetValue: the entry of a 1-row matrix, otherwise the cofactor expansion along row 0. */
  function Det(m: Mat): real
    requires m.Valid() && DetDefined(m.rows, m.cols)
    decreases m.rows, 2
  {
    if m.rows == 1 then m.cells[0][0] else DetSum(m, m.cols)
  }

  /** The first `k` terms of the expansion along row 0, summed in the order of the loop. */
  function DetSum(m: Mat, k: nat): real
    requires m.Valid() && DetDefined(m.rows, m.cols) && m.rows != 1 && k <= m.cols
    decreases m.rows, 1, k
  {
    if k == 0 then 0.0 else DetSum(m, k - 1) + DetTerm(m, k - 1)
  }

  /** Term `j` of the expansion: entry (0, j), its sign and the determinant of its cofactor. */
  function DetTerm(m: Mat, j: nat): real
    requires m.Valid() && DetDefined(m.rows, m.cols) && m.rows != 1 && j < m.cols
    decreases m.rows, 0
  {
    Mul(m.cells[0][j], Signed(j, Det(Cofactor(m, 0, j))))
  }

  /** The cofactors of every entry have a determinant. */
  predicate CofactorsDefined(m: Mat)
  {
    m.rows == 0 || m.cols == 0 || DetDefined(m.rows - 1, m.cols - 1)
  }

  /** Entry (i, j) is the signed minor of entry (i, j): the cofactor matrix, not its transpose. */
  function Adjoint(m: Mat): (r: Mat)
    requires m.Valid() && CofactorsDefined(m)
    ensures r.Valid() && r.rows == m.rows && r.cols == m.cols
  {
    Mat(m.rows, m.cols,
      seq(m.rows, i requires 0 <= i < m.rows =>
        seq(m.cols, j requires 0 <= j < m.cols => AdjointAt(m, i, j))))
  }

  /** The signed minor of entry (i, j). */
  function AdjointAt(m: Mat, i: nat, j: nat): real
    requires m.Valid() && CofactorsDefined(m) && i < m.rows && j < m.cols
  {
    Signed(i + j, Det(Cofactor(m, i, j)))
  }

  /** Inverse is only asked of a matrix it can divide by the determinant of. */
  predicate InverseDefined(m: Mat)
  {
    m.Valid() && CofactorsDefined(m) &&
    (m.rows == 0 || m.cols == 0 || (DetDefined(m.rows, m.cols) && Det(m) != 0.0))
  }

  /** Entry (i, j) is the signed minor of entry (j, i) divided by the determinant. */
  function Inverse(m: Mat): (r: Mat)
    requires InverseDefined(m)
    ensures r.Valid() && r.rows == m.rows && r.cols == m.cols
  {
    Mat(m.rows, m.cols,
      seq(m.rows, i requires 0 <= i < m.rows =>
        seq(m.cols, j requires 0 <= j < m.cols => InverseAt(m, i, j))))
  }

  /** The sign of (i, j) times the minor of entry (j, i), over the determinant. */
  function InverseAt(m: Mat, i: nat, j: nat): real
    requires InverseDefined(m) && i < m.rows && j < m.cols
  {
    Signed(i + j, Det(Cofactor(m, j, i))) / Det(m)
  }

  /** Entrywise `m + n`, the result of both `operator +` and `operator -` when they succeed. */
  function EntrywiseSum(m: Mat, n: Mat): (r: Mat)
    requires m.Valid() && n.Valid() && m.rows <= n.rows && m.cols == n.cols
    ensures r.Valid() && r.rows == m.rows && r.cols == m.cols
  {
    Mat(m.rows, m.cols,
      seq(m.rows, i requires 0 <= i < m.rows =>
        seq(m.cols, j requires 0 <= j < m.cols => m.cells[i][j] + n.cells[i][j])))
  }

  /**
   * `operator +`: it refuses operands whose column counts differ or whose row
   * counts are EQUAL; a left operand with more rows runs off the right one.
   */
  function Sum(m: Mat, n: Mat): Result<Mat>
    requires m.Valid() && n.Valid()
  {
    if m.cols != n.cols || m.rows == n.rows then Failure(InvalidOperation)
    else if m.rows > n.rows && m.cols > 0 then Failure(IndexOutOfRange)
    else if m.rows > n.rows then Success(Zeros(m.rows, 0))
    else Success(EntrywiseSum(m, n))
  }

  /** `operator -`: the same checks as `operator +`, and it also adds the entries. */
  function Difference(m: Mat, n: Mat): Result<Mat>
    requires m.Valid() && n.Valid()
  {
    if m.cols != n.cols || m.rows == n.rows then Failure(InvalidOperation)
    else if m.rows > n.rows && m.cols > 0 then Failure(IndexOutOfRange)
    else if m.rows > n.rows then Success(Zeros(m.rows, 0))
    else Success(EntrywiseSum(m, n))
  }

  /** `value * m`. */
  function Scale(value: real, m: Mat): (r: Mat)
    requires m.Valid()
    ensures r.Valid() && r.rows == m.rows && r.cols == m.cols
  {
    Mat(m.rows, m.cols,
      seq(m.rows, i requires 0 <= i < m.rows =>
        seq(m.cols, j requires 0 <= j < m.cols => value * m.cells[i][j])))
  }

  /** The first `k` terms of row `i` of `m` times column `j` of `n`, summed in the order of the loop. */
  function RowTimesColumn(m: Mat, n: Mat, i: nat, j: nat, k: nat): real
    requires m.Valid() && n.Valid() && m.cols == n.rows
    requires i < m.rows && j < n.cols && k <= m.cols
  {
    if k == 0 then 0.0 else RowTimesColumn(m, n, i, j, k - 1) + m.cells[i][k - 1] * n.cells[k - 1][j]
  }

  /** The product of matrices whose inner sizes agree. */
  function MatrixProduct(m: Mat, n: Mat): (r: Mat)
    requires m.Valid() && n.Valid() && m.cols == n.rows
    ensures r.Valid() && r.rows == m.rows && r.cols == n.cols
  {
    Mat(m.rows, n.cols,
      seq(m.rows, i requires 0 <= i < m.rows =>
        seq(n.cols, j requires 0 <= j < n.cols => RowTimesColumn(m, n, i, j, m.cols))))
  }

  /** `operator *` on two matrices: it refuses operands whose inner sizes differ. */
  function Product(m: Mat, n: Mat): Result<Mat>
    requires m.Valid() && n.Valid()
  {
    if m.cols != n.rows then Failure(InvalidOperation) else Success(MatrixProduct(m, n))
  }

  // ---------------------------------------------------------------- lemmas

  /** Two valid matrices of the same size with the same entries are equal. */
  lemma SameEntries(a: Mat, b: Mat)
    requires a.Valid() && b.Valid() && a.rows == b.rows && a.cols == b.cols
    requires forall i, j :: 0 <= i < a.rows && 0 <= j < a.cols ==> a.cells[i][j] == b.cells[i][j]
    ensures a == b
  {
    forall i | 0 <= i < a.rows
      ensures a.cells[i] == b.cells[i]
    {
    }
  }

  /** Transposing swaps the dimensions, moves entry (i, j) to (j, i), and twice gives the original. */
  lemma TransposeInvolution(m: Mat)
    requires m.Valid()
    ensures Transpose(m).rows == m.cols && Transpose(m).cols == m.rows
    ensures forall i, j :: 0 <= i < m.rows && 0 <= j < m.cols ==> Transpose(m).At(j, i) == m.At(i, j)
    ensures Transpose(Transpose(m)) == m
  {
    var t := Transpose(Transpose(m));
    forall i | 0 <= i < m.rows
      ensures t.cells[i] == m.cells[i]
    {
    }
  }

  /** Cofactor entry (i, j) is the original entry with the row index and the column index skipping the removed ones. */
  lemma CofactorEntries(m: Mat, r: int, c: int, i: nat, j: nat)
    requires m.Valid() && 1 <= m.rows && 1 <= m.cols
    requires i < m.rows - 1 && j < m.cols - 1
    ensures i < r && j < c ==> Cofactor(m, r, c).At(i, j) == m.At(i, j)
    ensures i >= r && j >= c ==> Cofactor(m, r, c).At(i, j) == m.At(i + 1, j + 1)
    ensures i < r && j >= c ==> Cofactor(m, r, c).At(i, j) == m.At(i, j + 1)
    ensures i >= r && j < c ==> Cofactor(m, r, c).At(i, j) == m.At(i + 1, j)
  {
    assert Cofactor(m, r, c).At(i, j) == m.At(Skip(i, r), Skip(j, c));
  }

  /** A matrix of one row has its first entry as determinant. */
  lemma DetOneRow(row: seq<real>)
    requires 1 <= |row|
    ensures Det(Mat(1, |row|, [row])) == row[0]
  {
  }

  /** An empty matrix, and a matrix of two or more rows and no columns, has determinant 0. */
  lemma DetNoColumns(rows: nat)
    requires rows != 1
    ensures Det(Zeros(rows, 0)) == 0.0
  {
  }

  /** The sizes the determinant fails on: more rows than columns by exactly one, or no rows with columns. */
  lemma DetUndefinedSizes(rows: nat, cols: nat)
    ensures !DetDefined(rows, cols) <==> rows == cols + 1 || (rows == 0 && cols > 0)
  {
  }

  /** Term `j` of the expansion from the values of its entry and of its minor. */
  lemma DetTermOf(m: Mat, j: nat, x: real, y: real)
    requires m.Valid() && DetDefined(m.rows, m.cols) && m.rows != 1 && j < m.cols
    requires m.cells[0][j] == x && Det(Cofactor(m, 0, j)) == y
    ensures DetTerm(m, j) == Mul(x, Signed(j, y))
  {
  }

  /** Two-by-two, rows (a b) and (c d): the familiar a d - b c. */
  lemma DetTwoByTwo(m: Mat, a: real, b: real, c: real, d: real)
    requires m.Valid() && m.rows == 2 && m.cols == 2
    requires m.cells[0][0] == a && m.cells[0][1] == b && m.cells[1][0] == c && m.cells[1][1] == d
    ensures Det(m) == a * d - b * c
  {
    assert Cofactor(m, 0, 0).cells[0][0] == d;
    assert Cofactor(m, 0, 1).cells[0][0] == c;
    DetTermOf(m, 0, a, d);
    DetTermOf(m, 1, b, c);
    assert DetSum(m, 1) == DetTerm(m, 0);
    assert Det(m) == DetSum(m, 1) + DetTerm(m, 1);
    ExpansionOfTwo(a, b, d, c);
  }

  lemma ExpansionOfTwo(a: real, b: real, x: real, y: real)
    ensures Mul(a, Signed(0, x)) + Mul(b, Signed(1, y)) == a * x - b * y
  {
  }

  /** The closed form of a three-by-three determinant, rows (a b c), (d e f), (g h i). */
  function Det3(a: real, b: real, c: real, d: real, e: real, f: real, g: real, h: real, i: real): real
  {
    a * (e * i - f * h) - b * (d * i - f * g) + c * (d * h - e * g)
  }

  /** The cofactor expansion of a three-by-three matrix agrees with its closed form. */
  lemma DetThreeByThree(m: Mat)
    requires m.Valid() && m.rows == 3 && m.cols == 3
    ensures Det(m) == Det3(m.cells[0][0], m.cells[0][1], m.cells[0][2],
                           m.cells[1][0], m.cells[1][1], m.cells[1][2],
                           m.cells[2][0], m.cells[2][1], m.cells[2][2])
  {
    MinorOfThree(m, 0, 1, 2);
    MinorOfThree(m, 1, 0, 2);
    MinorOfThree(m, 2, 0, 1);
    ExpandThree(m);
    ClosedFormOfThree(m.cells[0][0], m.cells[0][1], m.cells[0][2],
                      m.cells[1][0], m.cells[1][1], m.cells[1][2],
                      m.cells[2][0], m.cells[2][1], m.cells[2][2]);
  }

  /** Term `j` of the expansion of a three-by-three matrix, whose other columns are p < q. */
  lemma MinorOfThree(m: Mat, j: nat, p: nat, q: nat)
    requires m.Valid() && m.rows == 3 && m.cols == 3
    requires (j, p, q) == (0, 1, 2) || (j, p, q) == (1, 0, 2) || (j, p, q) == (2, 0, 1)
    ensures DetTerm(m, j) == Mul(m.cells[0][j], Signed(j, m.cells[1][p] * m.cells[2][q] - m.cells[1][q] * m.cells[2][p]))
  {
    CofactorOfThree(m, j, p, q);
    DetTwoByTwo(Cofactor(m, 0, j), m.cells[1][p], m.cells[1][q], m.cells[2][p], m.cells[2][q]);
    DetTermOf(m, j, m.cells[0][j], m.cells[1][p] * m.cells[2][q] - m.cells[1][q] * m.cells[2][p]);
  }

  lemma CofactorOfThree(m: Mat, j: nat, p: nat, q: nat)
    requires m.Valid() && m.rows == 3 && m.cols == 3
    requires (j, p, q) == (0, 1, 2) || (j, p, q) == (1, 0, 2) || (j, p, q) == (2, 0, 1)
    ensures Cofactor(m, 0, j).cells[0][0] == m.cells[1][p] && Cofactor(m, 0, j).cells[0][1] == m.cells[1][q]
    ensures Cofactor(m, 0, j).cells[1][0] == m.cells[2][p] && Cofactor(m, 0, j).cells[1][1] == m.cells[2][q]
  {
    assert Skip(0, 0) == 1 && Skip(1, 0) == 2 && Skip(0, j) == p && Skip(1, j) == q;
  }

  lemma ClosedFormOfThree(a: real, b: real, c: real, d: real, e: real, f: real, g: real, h: real, i: real)
    ensures Mul(a, Signed(0, e * i - f * h)) + Mul(b, Signed(1, d * i - f * g)) + Mul(c, Signed(2, d * h - e * g))
         == Det3(a, b, c, d, e, f, g, h, i)
  {
  }

  lemma ExpandThree(m: Mat)
    requires m.Valid() && m.rows == 3 && m.cols == 3
    ensures Det(m) == DetTerm(m, 0) + DetTerm(m, 1) + DetTerm(m, 2)
  {
    assert DetSum(m, 1) == DetTerm(m, 0);
    assert DetSum(m, 2) == DetSum(m, 1) + DetTerm(m, 1);
    assert DetSum(m, 3) == DetSum(m, 2) + DetTerm(m, 2);
  }

  /** Every entry of `t` divided by `d`. */
  function DivideAll(t: Mat, d: real): (r: Mat)
    requires t.Valid() && d != 0.0
    ensures r.Valid() && r.rows == t.rows && r.cols == t.cols
  {
    Mat(t.rows, t.cols,
      seq(t.rows, i requires 0 <= i < t.rows =>
        seq(t.cols, j requires 0 <= j < t.cols => t.cells[i][j] / d)))
  }

  /** A third column that combines the first two makes the determinant vanish: three coplanar vectors. */
  lemma Det3DependentColumns(a: real, b: real, d: real, e: real, g: real, h: real, s: real, t: real)
    ensures Det3(a, b, s * a + t * b, d, e, s * d + t * e, g, h, s * g + t * h) == 0.0
  {
  }

  /** The inverse is the transposed adjoint divided by the determinant. */
  lemma InverseIsTransposedAdjoint(m: Mat)
    requires InverseDefined(m) && m.rows == m.cols && 1 <= m.rows
    ensures Inverse(m) == DivideAll(Transpose(Adjoint(m)), Det(m))
  {
    forall i, j | 0 <= i < m.rows && 0 <= j < m.cols
      ensures Inverse(m).cells[i][j] == DivideAll(Transpose(Adjoint(m)), Det(m)).cells[i][j]
    {
      InverseEntryIsDividedAdjoint(m, i, j);
    }
    SameEntries(Inverse(m), DivideAll(Transpose(Adjoint(m)), Det(m)));
  }

  lemma InverseEntryIsDividedAdjoint(m: Mat, i: nat, j: nat)
    requires InverseDefined(m) && m.rows == m.cols && 1 <= m.rows && i < m.rows && j < m.cols
    ensures Inverse(m).cells[i][j] == DivideAll(Transpose(Adjoint(m)), Det(m)).cells[i][j]
  {
    InverseCell(m, i, j);
    TransposeCell(Adjoint(m), i, j);
    AdjointCell(m, j, i);
    DivideAllCell(Transpose(Adjoint(m)), Det(m), i, j);
    assert AdjointAt(m, j, i) == Signed(i + j, Det(Cofactor(m, j, i)));
  }

  lemma InverseCell(m: Mat, i: nat, j: nat)
    requires InverseDefined(m) && i < m.rows && j < m.cols
    ensures Inverse(m).cells[i][j] == InverseAt(m, i, j)
  {
  }

  lemma DivideAllCell(t: Mat, d: real, i: nat, j: nat)
    requires t.Valid() && d != 0.0 && i < t.rows && j < t.cols
    ensures DivideAll(t, d).cells[i][j] == t.cells[i][j] / d
  {
  }

  lemma TransposeCell(t: Mat, i: nat, j: nat)
    requires t.Valid() && i < t.cols && j < t.rows
    ensures Transpose(t).cells[i][j] == t.cells[j][i]
  {
  }

  lemma AdjointCell(m: Mat, i: nat, j: nat)
    requires m.Valid() && CofactorsDefined(m) && i < m.rows && j < m.cols
    ensures Adjoint(m).cells[i][j] == AdjointAt(m, i, j)
  {
  }

  /** A one-by-one matrix has inverse 0: its cofactor is the empty matrix, whose determinant is 0. */
  lemma InverseOneByOne(x: real)
    requires x != 0.0
    ensures InverseDefined(Mat(1, 1, [[x]]))
    ensures Inverse(Mat(1, 1, [[x]])) == Mat(1, 1, [[0.0]])
  {
    var m := Mat(1, 1, [[x]]);
    SameEntries(Cofactor(m, 0, 0), Zeros(0, 0));
    DetNoColumns(0);
    SameEntries(Inverse(m), Mat(1, 1, [[0.0]]));
  }

  /** `operator +` fails exactly when the column counts differ or the row counts agree, or the right operand has too few rows for a non-empty row. */
  lemma SumErrors(m: Mat, n: Mat)
    requires m.Valid() && n.Valid()
    ensures Sum(m, n) == Failure(InvalidOperation) <==> m.cols != n.cols || m.rows == n.rows
    ensures Sum(m, n) == Failure(IndexOutOfRange) <==> m.cols == n.cols && m.rows > n.rows && m.cols > 0
    ensures Sum(m, n).Success? ==> Sum(m, n).value.rows == m.rows && Sum(m, n).value.cols == m.cols
    ensures m.cols == n.cols && m.rows < n.rows ==>
      Sum(m, n).Success? && forall i, j :: 0 <= i < m.rows && 0 <= j < m.cols ==> Sum(m, n).value.At(i, j) == m.At(i, j) + n.At(i, j)
  {
  }

  /** `operator -` behaves exactly like `operator +`: same failures, and it adds. */
  lemma DifferenceIsSum(m: Mat, n: Mat)
    requires m.Valid() && n.Valid()
    ensures Difference(m, n) == Sum(m, n)
  {
  }

  /** Scaling by 1 changes nothing, scalings compose, and scaling commutes with transposition. */
  lemma ScaleProperties(a: real, b: real, m: Mat)
    requires m.Valid()
    ensures Scale(1.0, m) == m
    ensures Scale(a, Scale(b, m)) == Scale(a * b, m)
    ensures Transpose(Scale(a, m)) == Scale(a, Transpose(m))
  {
    SameEntries(Scale(1.0, m), m);
    forall i, j | 0 <= i < m.rows && 0 <= j < m.cols
      ensures Scale(a, Scale(b, m)).cells[i][j] == Scale(a * b, m).cells[i][j]
    {
      assert a * (b * m.cells[i][j]) == (a * b) * m.cells[i][j];
    }
    SameEntries(Scale(a, Scale(b, m)), Scale(a * b, m));
    SameEntries(Transpose(Scale(a, m)), Scale(a, Transpose(m)));
  }

  /** `operator *` fails exactly when the inner sizes differ, and otherwise has the outer sizes. */
  lemma ProductErrors(m: Mat, n: Mat)
    requires m.Valid() && n.Valid()
    ensures Product(m, n).Failure? <==> m.cols != n.rows
    ensures Product(m, n).Failure? ==> Product(m, n).error == InvalidOperation
    ensures Product(m, n).Success? ==> Product(m, n).value.rows == m.rows && Product(m, n).value.cols == n.cols
  {
  }

  /** A partial row-times-column sum against an identity column picks the one entry in range. */
  lemma {:induction false} RowTimesIdentityColumn(m: Mat, i: nat, j: nat, k: nat)
    requires m.Valid() && i < m.rows && j < m.cols && k <= m.cols
    ensures RowTimesColumn(m, Identity(m.cols), i, j, k) == if j < k then m.cells[i][j] else 0.0
  {
    if k > 0 {
      RowTimesIdentityColumn(m, i, j, k - 1);
    }
  }

  /** A partial identity-row-times-column sum picks the one entry in range. */
  lemma {:induction false} IdentityRowTimesColumn(m: Mat, i: nat, j: nat, k: nat)
    requires m.Valid() && i < m.rows && j < m.cols && k <= m.rows
    ensures RowTimesColumn(Identity(m.rows), m, i, j, k) == if i < k then m.cells[i][j] else 0.0
  {
    if k > 0 {
      IdentityRowTimesColumn(m, i, j, k - 1);
    }
  }

  /** The identity is neutral on both sides of the product. */
  lemma ProductIdentity(m: Mat)
    requires m.Valid()
    ensures Product(m, Identity(m.cols)) == Success(m)
    ensures Product(Identity(m.rows), m) == Success(m)
  {
    forall i, j | 0 <= i < m.rows && 0 <= j < m.cols
      ensures MatrixProduct(m, Identity(m.cols)).cells[i][j] == m.cells[i][j]
    {
      RowTimesIdentityColumn(m, i, j, m.cols);
    }
    SameEntries(MatrixProduct(m, Identity(m.cols)), m);
    forall i, j | 0 <= i < m.rows && 0 <= j < m.cols
      ensures MatrixProduct(Identity(m.rows), m).cells[i][j] == m.cells[i][j]
    {
      IdentityRowTimesColumn(m, i, j, m.rows);
    }
    SameEntries(MatrixProduct(Identity(m.rows), m), m);
  }

  // ---------------------------------------------------------------- inverse of a three-by-three matrix

  /** The signed minor of entry (r, c) of a three-by-three matrix. */
  function SignedMinorOfThree(m: Mat, r: nat, c: nat): real
    requires m.Valid() && m.rows == 3 && m.cols == 3 && r < 3 && c < 3
  {
    Signed(c + r, Det(Cofactor(m, r, c)))
  }

  /**
   * A three-by-three matrix with a non-zero determinant times its inverse,
   * on either side, is the identity.
   */
  lemma InverseOfThreeIsInverse(m: Mat)
    requires m.Valid() && m.rows == 3 && m.cols == 3 && Det(m) != 0.0
    ensures InverseDefined(m)
    ensures Product(m, Inverse(m)) == Success(Identity(3))
    ensures Product(Inverse(m), m) == Success(Identity(3))
  {
    forall i, j | 0 <= i < 3 && 0 <= j < 3
      ensures MatrixProduct(m, Inverse(m)).cells[i][j] == Identity(3).cells[i][j]
    {
      ProductInverseCell(m, i, j);
    }
    SameEntries(MatrixProduct(m, Inverse(m)), Identity(3));
    forall i, j | 0 <= i < 3 && 0 <= j < 3
      ensures MatrixProduct(Inverse(m), m).cells[i][j] == Identity(3).cells[i][j]
    {
      InverseProductCell(m, i, j);
    }
    SameEntries(MatrixProduct(Inverse(m), m), Identity(3));
  }

  /** Entry (k, j) of the inverse is the signed minor of entry (j, k) over the determinant. */
  lemma InverseEntryOfThree(m: Mat, k: nat, j: nat)
    requires m.Valid() && m.rows == 3 && m.cols == 3 && Det(m) != 0.0 && k < 3 && j < 3
    ensures Inverse(m).cells[k][j] == SignedMinorOfThree(m, j, k) / Det(m)
  {
    InverseCell(m, k, j);
  }

  lemma ProductInverseCell(m: Mat, i: nat, j: nat)
    requires m.Valid() && m.rows == 3 && m.cols == 3 && Det(m) != 0.0 && i < 3 && j < 3
    ensures MatrixProduct(m, Inverse(m)).cells[i][j] == if i == j then 1.0 else 0.0
  {
    ProductCellOfThree(m, Inverse(m), i, j);
    InverseEntryOfThree(m, 0, j);
    InverseEntryOfThree(m, 1, j);
    InverseEntryOfThree(m, 2, j);
    RowExpansion(m, i, j);
    var n := if i == j then Det(m) else 0.0;
    WeightedQuotients(m.cells[i][0], m.cells[i][1], m.cells[i][2],
      SignedMinorOfThree(m, j, 0), SignedMinorOfThree(m, j, 1), SignedMinorOfThree(m, j, 2), Det(m), n);
    QuotientOfDet(Det(m), n, i == j);
  }

  lemma QuotientOfDet(d: real, n: real, same: bool)
    requires d != 0.0 && n == if same then d else 0.0
    ensures n / d == if same then 1.0 else 0.0
  {
    DivSelf(d);
  }

  lemma InverseProductCell(m: Mat, i: nat, j: nat)
    requires m.Valid() && m.rows == 3 && m.cols == 3 && Det(m) != 0.0 && i < 3 && j < 3
    ensures MatrixProduct(Inverse(m), m).cells[i][j] == if i == j then 1.0 else 0.0
  {
    ProductCellOfThree(Inverse(m), m, i, j);
    InverseEntryOfThree(m, i, 0);
    InverseEntryOfThree(m, i, 1);
    InverseEntryOfThree(m, i, 2);
    ColumnExpansion(m, i, j);
    var n := if i == j then Det(m) else 0.0;
    WeightedQuotients(m.cells[0][j], m.cells[1][j], m.cells[2][j],
      SignedMinorOfThree(m, 0, i), SignedMinorOfThree(m, 1, i), SignedMinorOfThree(m, 2, i), Det(m), n);
    QuotientOfDet(Det(m), n, i == j);
  }

  /** Row i against the signed minors of row j: the determinant when i = j, else that of a matrix with a repeated row. */
  lemma RowExpansion(m: Mat, i: nat, j: nat)
    requires m.Valid() && m.rows == 3 && m.cols == 3 && i < 3 && j < 3
    ensures m.cells[i][0] * SignedMinorOfThree(m, j, 0) + m.cells[i][1] * SignedMinorOfThree(m, j, 1)
          + m.cells[i][2] * SignedMinorOfThree(m, j, 2) == if i == j then Det(m) else 0.0
  {
    DetThreeByThree(m);
    MinorOfThreeByThree(m, j, 0);
    MinorOfThreeByThree(m, j, 1);
    MinorOfThreeByThree(m, j, 2);
  }

  /** Column j against the signed minors of column i: the determinant when i = j, else 0. */
  lemma ColumnExpansion(m: Mat, i: nat, j: nat)
    requires m.Valid() && m.rows == 3 && m.cols == 3 && i < 3 && j < 3
    ensures m.cells[0][j] * SignedMinorOfThree(m, 0, i) + m.cells[1][j] * SignedMinorOfThree(m, 1, i)
          + m.cells[2][j] * SignedMinorOfThree(m, 2, i) == if i == j then Det(m) else 0.0
  {
    DetThreeByThree(m);
    MinorOfThreeByThree(m, 0, i);
    MinorOfThreeByThree(m, 1, i);
    MinorOfThreeByThree(m, 2, i);
  }

  /** Three products whose sum is n, with one factor of each divided by d, sum to n / d, in either order of the factors. */
  lemma WeightedQuotients(x0: real, x1: real, x2: real, c0: real, c1: real, c2: real, d: real, n: real)
    requires d != 0.0 && x0 * c0 + x1 * c1 + x2 * c2 == n
    ensures x0 * (c0 / d) + x1 * (c1 / d) + x2 * (c2 / d) == n / d
    ensures (c0 / d) * x0 + (c1 / d) * x1 + (c2 / d) * x2 == n / d
  {
    MulDiv(x0, c0, d);
    MulDiv(x1, c1, d);
    MulDiv(x2, c2, d);
    DivAdd(x0 * c0, x1 * c1, d);
    DivAdd(x0 * c0 + x1 * c1, x2 * c2, d);
  }

  // ---------------------------------------------------------------- corrected sum and difference

  /** Entrywise `m - n`. */
  function EntrywiseDifference(m: Mat, n: Mat): (r: Mat)
    requires m.Valid() && n.Valid() && m.rows == n.rows && m.cols == n.cols
    ensures r.Valid() && r.rows == m.rows && r.cols == m.cols
  {
    Mat(m.rows, m.cols,
      seq(m.rows, i requires 0 <= i < m.rows =>
        seq(m.cols, j requires 0 <= j < m.cols => m.cells[i][j] - n.cells[i][j])))
  }

  /** `operator +` as its own message describes it: operands of one size, added entry by entry. */
  function CorrectedSum(m: Mat, n: Mat): Result<Mat>
    requires m.Valid() && n.Valid()
  {
    if m.cols != n.cols || m.rows != n.rows then Failure(InvalidOperation) else Success(EntrywiseSum(m, n))
  }

  /** `operator -` as its own message describes it: operands of one size, subtracted entry by entry. */
  function CorrectedDifference(m: Mat, n: Mat): Result<Mat>
    requires m.Valid() && n.Valid()
  {
    if m.cols != n.cols || m.rows != n.rows then Failure(InvalidOperation) else Success(EntrywiseDifference(m, n))
  }

  /**
   * The corrected sum succeeds exactly on operands of one size, adds their
   * entries and does not depend on the order of the operands.
   */
  lemma CorrectedSumSpec(m: Mat, n: Mat)
    requires m.Valid() && n.Valid()
    ensures CorrectedSum(m, n).Success? <==> m.rows == n.rows && m.cols == n.cols
    ensures CorrectedSum(m, n).Failure? ==> CorrectedSum(m, n).error == InvalidOperation
    ensures CorrectedSum(m, n).Success? ==>
      && CorrectedSum(m, n).value.rows == m.rows && CorrectedSum(m, n).value.cols == m.cols
      && forall i, j :: 0 <= i < m.rows && 0 <= j < m.cols ==> CorrectedSum(m, n).value.At(i, j) == m.At(i, j) + n.At(i, j)
    ensures CorrectedSum(m, n) == CorrectedSum(n, m)
  {
    if m.rows == n.rows && m.cols == n.cols {
      SameEntries(EntrywiseSum(m, n), EntrywiseSum(n, m));
    }
  }

  /**
   * The corrected difference succeeds exactly on operands of one size, and
   * adding back what was subtracted restores the left operand; a matrix
   * minus itself is zero.
   */
  lemma CorrectedDifferenceSpec(m: Mat, n: Mat)
    requires m.Valid() && n.Valid()
    ensures CorrectedDifference(m, n).Success? <==> m.rows == n.rows && m.cols == n.cols
    ensures CorrectedDifference(m, n).Success? ==> CorrectedSum(CorrectedDifference(m, n).value, n) == Success(m)
    ensures CorrectedDifference(m, m) == Success(Zeros(m.rows, m.cols))
  {
    if m.rows == n.rows && m.cols == n.cols {
      var d := EntrywiseDifference(m, n);
      SameEntries(EntrywiseSum(d, n), m);
    }
    SameEntries(EntrywiseDifference(m, m), Zeros(m.rows, m.cols));
  }

  /** Two zero matrices of one size: `operator +` refuses them, where the corrected sum adds them. */
  lemma SameSizeSumRefused(m: Mat)
    requires m == Zeros(2, 2)
    ensures Sum(m, m) == Failure(InvalidOperation)
    ensures Difference(m, m) == Failure(InvalidOperation)
    ensures CorrectedSum(m, m) == Success(m)
  {
    SameEntries(EntrywiseSum(m, m), m);
  }

  /** [1] minus the column (1, 0): `operator -` gives [2], where the difference of the first rows is [0]. */
  lemma DifferenceAdds(m: Mat, n: Mat)
    requires m == Mat(1, 1, [[1.0]]) && n == Mat(2, 1, [[1.0], [0.0]])
    ensures Difference(m, n) == Success(Mat(1, 1, [[2.0]]))
    ensures m.At(0, 0) - n.At(0, 0) == 0.0
  {
    SameEntries(EntrywiseSum(m, n), Mat(1, 1, [[2.0]]));
  }

  // ---------------------------------------------------------------- the class

  /** The value held by a two-dimensional array. */
  ghost function ArrayValue(a: array2<real>): (m: Mat)
    reads a
    ensures m.Valid() && m.rows == a.Length0 && m.cols == a.Length1
  {
    Mat(a.Length0, a.Length1,
      seq(a.Length0, i requires 0 <= i < a.Length0 reads a =>
        seq(a.Length1, j requires 0 <= j < a.Length1 reads a => a[i, j])))
  }

  /** An array holds `m` when it has the size of `m` and its entries. */
  lemma ArrayValueIs(a: array2<real>, m: Mat)
    requires m.Valid() && a.Length0 == m.rows && a.Length1 == m.cols
    requires forall i, j :: 0 <= i < m.rows && 0 <= j < m.cols ==> a[i, j] == m.cells[i][j]
    ensures ArrayValue(a) == m
  {
    SameEntries(ArrayValue(a), m);
  }

  /** Entry (i, j) of the value of an array is the array's entry. */
  lemma ArrayValueAt(a: array2<real>, i: nat, j: nat)
    requires i < a.Length0 && j < a.Length1
    ensures ArrayValue(a).cells[i][j] == a[i, j]
  {
  }

  /** The entry written into (i, j) and every other entry kept. */
  function Update(m: Mat, i: nat, j: nat, v: real): (r: Mat)
    requires m.Valid() && i < m.rows && j < m.cols
    ensures r.Valid() && r.rows == m.rows && r.cols == m.cols
  {
    Mat(m.rows, m.cols, m.cells[i := m.cells[i][j := v]])
  }

  /** After an update, entry (i, j) reads the new value and every other entry the old one. */
  lemma UpdateProperties(m: Mat, i: nat, j: nat, v: real)
    requires m.Valid() && i < m.rows && j < m.cols
    ensures Update(m, i, j, v).At(i, j) == v
    ensures forall a, b :: 0 <= a < m.rows && 0 <= b < m.cols && (a, b) != (i, j) ==>
      Update(m, i, j, v).At(a, b) == m.At(a, b)
  {
  }

  /** An array filled from another with row r and column c skipped holds the cofactor. */
  lemma CofactorOfArray(a: array2<real>, b: array2<real>, r: int, c: int)
    requires 1 <= a.Length0 && 1 <= a.Length1
    requires b.Length0 == a.Length0 - 1 && b.Length1 == a.Length1 - 1
    requires forall i, j :: 0 <= i < b.Length0 && 0 <= j < b.Length1 ==> b[i, j] == a[Skip(i, r), Skip(j, c)]
    ensures ArrayValue(b) == Cofactor(ArrayValue(a), r, c)
  {
    forall i, j | 0 <= i < b.Length0 && 0 <= j < b.Length1
      ensures b[i, j] == Cofactor(ArrayValue(a), r, c).cells[i][j]
    {
      ArrayValueAt(a, Skip(i, r), Skip(j, c));
    }
    ArrayValueIs(b, Cofactor(ArrayValue(a), r, c));
  }

  /** One more term of the expansion, from the entry and the minor the loop computed. */
  lemma DetSumStep(m: Mat, j: nat, x: real, minor: real)
    requires m.Valid() && DetDefined(m.rows, m.cols) && m.rows != 1 && j < m.cols
    requires m.cells[0][j] == x && Det(Cofactor(m, 0, j)) == minor
    ensures DetSum(m, j + 1) == DetSum(m, j) + Mul(x, Signed(j, minor))
  {
    DetTermOf(m, j, x, minor);
  }

  /** An array filled with the entrywise sums of two others holds their entrywise sum. */
  lemma EntrywiseSumOfArrays(a: array2<real>, b: array2<real>, c: array2<real>)
    requires a.Length1 == b.Length1 && a.Length0 <= b.Length0
    requires c.Length0 == a.Length0 && c.Length1 == a.Length1
    requires forall i, j :: 0 <= i < a.Length0 && 0 <= j < a.Length1 ==> c[i, j] == a[i, j] + b[i, j]
    ensures ArrayValue(c) == EntrywiseSum(ArrayValue(a), ArrayValue(b))
  {
    forall i, j | 0 <= i < a.Length0 && 0 <= j < a.Length1
      ensures c[i, j] == EntrywiseSum(ArrayValue(a), ArrayValue(b)).cells[i][j]
    {
      ArrayValueAt(a, i, j);
      ArrayValueAt(b, i, j);
    }
    ArrayValueIs(c, EntrywiseSum(ArrayValue(a), ArrayValue(b)));
  }

  lemma ProductCell(m: Mat, n: Mat, i: nat, j: nat)
    requires m.Valid() && n.Valid() && m.cols == n.rows && i < m.rows && j < n.cols
    ensures MatrixProduct(m, n).cells[i][j] == RowTimesColumn(m, n, i, j, m.cols)
  {
  }

  /** An entry of a product whose inner size is three, written out. */
  lemma ProductCellOfThree(m: Mat, n: Mat, i: nat, j: nat)
    requires m.Valid() && n.Valid() && m.cols == 3 && n.rows == 3 && i < m.rows && j < n.cols
    ensures MatrixProduct(m, n).cells[i][j]
         == m.cells[i][0] * n.cells[0][j] + m.cells[i][1] * n.cells[1][j] + m.cells[i][2] * n.cells[2][j]
  {
    assert RowTimesColumn(m, n, i, j, 1) == m.cells[i][0] * n.cells[0][j];
    assert RowTimesColumn(m, n, i, j, 2) == RowTimesColumn(m, n, i, j, 1) + m.cells[i][1] * n.cells[1][j];
    assert RowTimesColumn(m, n, i, j, 3) == RowTimesColumn(m, n, i, j, 2) + m.cells[i][2] * n.cells[2][j];
  }

  /** An entry of a product whose inner size is four, written out. */
  lemma ProductCellOfFour(m: Mat, n: Mat, i: nat, j: nat)
    requires m.Valid() && n.Valid() && m.cols == 4 && n.rows == 4 && i < m.rows && j < n.cols
    ensures MatrixProduct(m, n).cells[i][j]
         == m.cells[i][0] * n.cells[0][j] + m.cells[i][1] * n.cells[1][j]
          + m.cells[i][2] * n.cells[2][j] + m.cells[i][3] * n.cells[3][j]
  {
    assert RowTimesColumn(m, n, i, j, 1) == m.cells[i][0] * n.cells[0][j];
    assert RowTimesColumn(m, n, i, j, 2) == RowTimesColumn(m, n, i, j, 1) + m.cells[i][1] * n.cells[1][j];
    assert RowTimesColumn(m, n, i, j, 3) == RowTimesColumn(m, n, i, j, 2) + m.cells[i][2] * n.cells[2][j];
    assert RowTimesColumn(m, n, i, j, 4) == RowTimesColumn(m, n, i, j, 3) + m.cells[i][3] * n.cells[3][j];
  }

  /**
   * Entry (i, j) of the inverse of a three-by-three matrix: the signed minor of
   * entry (j, i) over the determinant, where rows (a b) and (c d) are what is
   * left once row j and column i are removed.
   */
  lemma InverseCellOfThree(m: Mat, i: nat, j: nat, a: real, b: real, c: real, d: real)
    requires m.Valid() && m.rows == 3 && m.cols == 3 && i < 3 && j < 3 && Det(m) != 0.0
    requires a == m.cells[Skip(0, j)][Skip(0, i)] && b == m.cells[Skip(0, j)][Skip(1, i)]
    requires c == m.cells[Skip(1, j)][Skip(0, i)] && d == m.cells[Skip(1, j)][Skip(1, i)]
    ensures Inverse(m).cells[i][j] == Signed(i + j, a * d - b * c) / Det(m)
  {
    MinorOfThreeByThree(m, j, i);
  }

  /** The minor of entry (r, c) of a three-by-three matrix: the two-by-two determinant of the rows and columns left. */
  lemma MinorOfThreeByThree(m: Mat, r: nat, c: nat)
    requires m.Valid() && m.rows == 3 && m.cols == 3 && r < 3 && c < 3
    ensures Det(Cofactor(m, r, c))
         == m.cells[Skip(0, r)][Skip(0, c)] * m.cells[Skip(1, r)][Skip(1, c)]
          - m.cells[Skip(0, r)][Skip(1, c)] * m.cells[Skip(1, r)][Skip(0, c)]
  {
    DetTwoByTwo(Cofactor(m, r, c),
      m.cells[Skip(0, r)][Skip(0, c)], m.cells[Skip(0, r)][Skip(1, c)],
      m.cells[Skip(1, r)][Skip(0, c)], m.cells[Skip(1, r)][Skip(1, c)]);
  }

  /** A matrix: a two-dimensional array of entries, indexed row first. */
  class Matrix {
    const data: array2<real>

    /** The entries, as a value. */
    ghost function Value(): (m: Mat)
      reads data
      ensures m.Valid() && m.rows == data.Length0 && m.cols == data.Length1
    {
      ArrayValue(data)
    }

    function RowCount(): nat
    {
      data.Length0
    }

    function ColCount(): nat
    {
      data.Length1
    }

    /** A zero matrix of the given size. */
    constructor (rowCount: nat, colCount: nat)
      ensures fresh(data)
      ensures Value() == Zeros(rowCount, colCount)
    {
      data := new real[rowCount, colCount]((i, j) => 0.0);
      new;
      ArrayValueIs(data, Zeros(rowCount, colCount));
    }

    /** A matrix over the given array, which it shares rather than copies. */
    constructor FromArray(values: array2<real>)
      ensures data == values
    {
      data := values;
    }

    /** The indexer's getter. */
    function Get(i: nat, j: nat): (v: real)
      requires i < RowCount() && j < ColCount()
      reads data
      ensures v == Value().At(i, j)
    {
      ArrayValueAt(data, i, j);
      data[i, j]
    }

    /** The indexer's setter: it writes into the shared array. */
    method Set(i: nat, j: nat, v: real)
      requires i < RowCount() && j < ColCount()
      modifies data
      ensures Value() == Update(old(Value()), i, j, v)
    {
      data[i, j] := v;
      forall a, b | 0 <= a < RowCount() && 0 <= b < ColCount()
        ensures data[a, b] == Update(old(Value()), i, j, v).cells[a][b]
      {
        if (a, b) != (i, j) {
          assert data[a, b] == old(data[a, b]);
          assert old(data[a, b]) == old(Value()).cells[a][b];
        }
      }
      ArrayValueIs(data, Update(old(Value()), i, j, v));
    }

    /** GetCofactor: a fresh matrix without row r and column c. */
    method GetCofactor(r: int, c: int) returns (result: Matrix)
      requires 1 <= RowCount() && 1 <= ColCount()
      ensures fresh(result.data)
      ensures result.Value() == Cofactor(Value(), r, c)
    {
      result := new Matrix(RowCount() - 1, ColCount() - 1);
      for i := 0 to RowCount() - 1
        invariant fresh(result.data) && result.data.Length0 == RowCount() - 1 && result.data.Length1 == ColCount() - 1
        invariant forall a, b :: 0 <= a < i && 0 <= b < ColCount() - 1 ==>
          result.data[a, b] == data[Skip(a, r), Skip(b, c)]
      {
        for j := 0 to ColCount() - 1
          invariant forall a, b :: 0 <= a < i && 0 <= b < ColCount() - 1 ==>
            result.data[a, b] == data[Skip(a, r), Skip(b, c)]
          invariant forall b :: 0 <= b < j ==> result.data[i, b] == data[Skip(i, r), Skip(b, c)]
        {
          result.data[i, j] := data[Skip(i, r), Skip(j, c)];
        }
      }
      CofactorOfArray(data, result.data, r, c);
    }

    /** DetValue: the cofactor expansion along row 0, each minor computed recursively. */
    method DetValue() returns (det: real)
      requires DetDefined(RowCount(), ColCount())
      ensures det == Det(Value())
      decreases RowCount()
    {
      if RowCount() == 1 {
        ArrayValueAt(data, 0, 0);
        return data[0, 0];
      }
      var sum := 0.0;
      for j := 0 to ColCount()
        invariant sum == DetSum(Value(), j)
      {
        var cofactor := GetCofactor(0, j);
        var minor := cofactor.DetValue();
        ArrayValueAt(data, 0, j);
        DetSumStep(Value(), j, data[0, j], minor);
        sum := sum + Mul(data[0, j], Signed(j, minor));
      }
      return sum;
    }

    /** One entry of Inverse: the signed minor of entry (j, i) over DetValue. */
    method InverseEntry(i: nat, j: nat) returns (entry: real)
      requires InverseDefined(Value()) && i < RowCount() && j < ColCount()
      ensures entry == InverseAt(Value(), i, j) && entry == Inverse(Value()).cells[i][j]
    {
      var cofactor := GetCofactor(j, i);
      var minor := cofactor.DetValue();
      var det := DetValue();
      entry := Signed(i + j, minor) / det;
      InverseCell(Value(), i, j);
    }

    /** One entry of Adjoint: the signed minor of entry (i, j). */
    method AdjointEntry(i: nat, j: nat) returns (entry: real)
      requires CofactorsDefined(Value()) && i < RowCount() && j < ColCount()
      ensures entry == AdjointAt(Value(), i, j) && entry == Adjoint(Value()).cells[i][j]
    {
      var cofactor := GetCofactor(i, j);
      var minor := cofactor.DetValue();
      entry := Signed(i + j, minor);
      AdjointCell(Value(), i, j);
    }

    /** Inverse: entry (i, j) is the signed minor of entry (j, i) over DetValue, recomputed for every entry. */
    method GetInverse() returns (result: Matrix)
      requires InverseDefined(Value())
      ensures fresh(result.data)
      ensures result.Value() == Inverse(Value())
    {
      result := new Matrix(RowCount(), ColCount());
      for i := 0 to RowCount()
        invariant fresh(result.data) && result.data.Length0 == RowCount() && result.data.Length1 == ColCount()
        invariant forall a, b :: 0 <= a < i && 0 <= b < ColCount() ==> result.data[a, b] == Inverse(Value()).cells[a][b]
      {
        InverseRow(result, i);
      }
      ArrayValueIs(result.data, Inverse(Value()));
    }

    /** The inner loop of Inverse: row i of the result. */
    method InverseRow(result: Matrix, i: nat)
      requires InverseDefined(Value()) && i < RowCount()
      requires result.data != data && result.data.Length0 == RowCount() && result.data.Length1 == ColCount()
      modifies result.data
      ensures forall a, b :: 0 <= a < RowCount() && 0 <= b < ColCount() && a != i ==> result.data[a, b] == old(result.data[a, b])
      ensures forall b :: 0 <= b < ColCount() ==> result.data[i, b] == Inverse(Value()).cells[i][b]
    {
      for j := 0 to ColCount()
        invariant forall a, b :: 0 <= a < RowCount() && 0 <= b < ColCount() && a != i ==> result.data[a, b] == old(result.data[a, b])
        invariant forall b :: 0 <= b < j ==> result.data[i, b] == Inverse(Value()).cells[i][b]
      {
        var entry := InverseEntry(i, j);
        result.data[i, j] := entry;
      }
    }
    /** Transpose: a fresh matrix with entry (i, j) moved to (j, i). */
    method GetTranspose() returns (result: Matrix)
      ensures fresh(result.data)
      ensures result.Value() == Transpose(Value())
    {
      result := new Matrix(ColCount(), RowCount());
      for i := 0 to RowCount()
        invariant fresh(result.data) && result.data.Length0 == ColCount() && result.data.Length1 == RowCount()
        invariant forall a, b :: 0 <= a < i && 0 <= b < ColCount() ==> result.data[b, a] == data[a, b]
      {
        for j := 0 to ColCount()
          invariant forall a, b :: 0 <= a < i && 0 <= b < ColCount() ==> result.data[b, a] == data[a, b]
          invariant forall b :: 0 <= b < j ==> result.data[b, i] == data[i, b]
        {
          result.data[j, i] := data[i, j];
        }
      }
      forall a, b | 0 <= a < ColCount() && 0 <= b < RowCount()
        ensures result.data[a, b] == Transpose(Value()).cells[a][b]
      {
        ArrayValueAt(data, b, a);
      }
      ArrayValueIs(result.data, Transpose(Value()));
    }

    /** Adjoint: entry (i, j) is the signed minor of entry (i, j). */
    method GetAdjoint() returns (result: Matrix)
      requires CofactorsDefined(Value())
      ensures fresh(result.data)
      ensures result.Value() == Adjoint(Value())
    {
      result := new Matrix(RowCount(), ColCount());
      for i := 0 to RowCount()
        invariant fresh(result.data) && result.data.Length0 == RowCount() && result.data.Length1 == ColCount()
        invariant forall a, b :: 0 <= a < i && 0 <= b < ColCount() ==> result.data[a, b] == Adjoint(Value()).cells[a][b]
      {
        AdjointRow(result, i);
      }
      ArrayValueIs(result.data, Adjoint(Value()));
    }

    /** The inner loop of Adjoint: row i of the result. */
    method AdjointRow(result: Matrix, i: nat)
      requires CofactorsDefined(Value()) && i < RowCount()
      requires result.data != data && result.data.Length0 == RowCount() && result.data.Length1 == ColCount()
      modifies result.data
      ensures forall a, b :: 0 <= a < RowCount() && 0 <= b < ColCount() && a != i ==> result.data[a, b] == old(result.data[a, b])
      ensures forall b :: 0 <= b < ColCount() ==> result.data[i, b] == Adjoint(Value()).cells[i][b]
    {
      for j := 0 to ColCount()
        invariant forall a, b :: 0 <= a < RowCount() && 0 <= b < ColCount() && a != i ==> result.data[a, b] == old(result.data[a, b])
        invariant forall b :: 0 <= b < j ==> result.data[i, b] == Adjoint(Value()).cells[i][b]
      {
        var entry := AdjointEntry(i, j);
        result.data[i, j] := entry;
      }
    }
    /**
     * `operator +`: refused when the column counts differ or the row counts are
     * equal; the entrywise loop runs off `n` at its first row past the end of `n`.
     */
    static method Plus(m: Matrix, n: Matrix) returns (r: Result<Matrix>)
      ensures r.Success? <==> Sum(m.Value(), n.Value()).Success?
      ensures r.Failure? ==> r.error == Sum(m.Value(), n.Value()).error
      ensures r.Success? ==> fresh(r.value.data) && r.value.Value() == Sum(m.Value(), n.Value()).value
    {
      if m.ColCount() != n.ColCount() || m.RowCount() == n.RowCount() {
        return Failure(InvalidOperation);
      }
      var result := new Matrix(m.RowCount(), m.ColCount());
      for i := 0 to m.RowCount()
        invariant fresh(result.data) && result.data.Length0 == m.RowCount() && result.data.Length1 == m.ColCount()
        invariant m.ColCount() > 0 ==> i <= n.RowCount()
        invariant forall a, b :: 0 <= a < i && 0 <= b < m.ColCount() ==> result.data[a, b] == m.data[a, b] + n.data[a, b]
      {
        for j := 0 to m.ColCount()
          invariant j > 0 ==> i < n.RowCount()
          invariant forall a, b :: 0 <= a < i && 0 <= b < m.ColCount() ==> result.data[a, b] == m.data[a, b] + n.data[a, b]
          invariant forall b :: 0 <= b < j ==> result.data[i, b] == m.data[i, b] + n.data[i, b]
        {
          if i >= n.RowCount() {
            return Failure(IndexOutOfRange);
          }
          result.data[i, j] := m.data[i, j] + n.data[i, j];
        }
      }
      if m.RowCount() > n.RowCount() {
        ArrayValueIs(result.data, Zeros(m.RowCount(), 0));
      } else {
        EntrywiseSumOfArrays(m.data, n.data, result.data);
      }
      return Success(result);
    }

    /** `operator -`: the same checks and the same loop as `operator +`, which adds the entries. */
    static method Minus(m: Matrix, n: Matrix) returns (r: Result<Matrix>)
      ensures r.Success? <==> Difference(m.Value(), n.Value()).Success?
      ensures r.Failure? ==> r.error == Difference(m.Value(), n.Value()).error
      ensures r.Success? ==> fresh(r.value.data) && r.value.Value() == Difference(m.Value(), n.Value()).value
    {
      if m.ColCount() != n.ColCount() || m.RowCount() == n.RowCount() {
        return Failure(InvalidOperation);
      }
      var result := new Matrix(m.RowCount(), m.ColCount());
      for i := 0 to m.RowCount()
        invariant fresh(result.data) && result.data.Length0 == m.RowCount() && result.data.Length1 == m.ColCount()
        invariant m.ColCount() > 0 ==> i <= n.RowCount()
        invariant forall a, b :: 0 <= a < i && 0 <= b < m.ColCount() ==> result.data[a, b] == m.data[a, b] + n.data[a, b]
      {
        for j := 0 to m.ColCount()
          invariant j > 0 ==> i < n.RowCount()
          invariant forall a, b :: 0 <= a < i && 0 <= b < m.ColCount() ==> result.data[a, b] == m.data[a, b] + n.data[a, b]
          invariant forall b :: 0 <= b < j ==> result.data[i, b] == m.data[i, b] + n.data[i, b]
        {
          if i >= n.RowCount() {
            return Failure(IndexOutOfRange);
          }
          result.data[i, j] := m.data[i, j] + n.data[i, j];
        }
      }
      if m.RowCount() > n.RowCount() {
        ArrayValueIs(result.data, Zeros(m.RowCount(), 0));
      } else {
        EntrywiseSumOfArrays(m.data, n.data, result.data);
      }
      return Success(result);
    }

    /** `operator *` with a scalar on the left. */
    static method ScaledBy(value: real, m: Matrix) returns (result: Matrix)
      ensures fresh(result.data)
      ensures result.Value() == Scale(value, m.Value())
    {
      result := new Matrix(m.RowCount(), m.ColCount());
      for i := 0 to m.RowCount()
        invariant fresh(result.data) && result.data.Length0 == m.RowCount() && result.data.Length1 == m.ColCount()
        invariant forall a, b :: 0 <= a < i && 0 <= b < m.ColCount() ==> result.data[a, b] == value * m.data[a, b]
      {
        for j := 0 to m.ColCount()
          invariant forall a, b :: 0 <= a < i && 0 <= b < m.ColCount() ==> result.data[a, b] == value * m.data[a, b]
          invariant forall b :: 0 <= b < j ==> result.data[i, b] == value * m.data[i, b]
        {
          result.data[i, j] := value * m.data[i, j];
        }
      }
      forall a, b | 0 <= a < m.RowCount() && 0 <= b < m.ColCount()
        ensures result.data[a, b] == Scale(value, m.Value()).cells[a][b]
      {
        ArrayValueAt(m.data, a, b);
      }
      ArrayValueIs(result.data, Scale(value, m.Value()));
    }

    /** The innermost loop of `operator *`: row i of m times column j of n. */
    static method RowTimesColumnOf(m: Matrix, n: Matrix, i: nat, j: nat) returns (sum: real)
      requires m.ColCount() == n.RowCount() && i < m.RowCount() && j < n.ColCount()
      ensures sum == RowTimesColumn(m.Value(), n.Value(), i, j, m.ColCount())
      ensures sum == MatrixProduct(m.Value(), n.Value()).cells[i][j]
    {
      ProductCell(m.Value(), n.Value(), i, j);
      sum := 0.0;
      for k := 0 to m.ColCount()
        invariant sum == RowTimesColumn(m.Value(), n.Value(), i, j, k)
      {
        ArrayValueAt(m.data, i, k);
        ArrayValueAt(n.data, k, j);
        sum := sum + m.data[i, k] * n.data[k, j];
      }
    }

    /** `operator *` on two matrices: refused when the inner sizes differ, otherwise row-times-column sums. */
    static method Times(m: Matrix, n: Matrix) returns (r: Result<Matrix>)
      ensures r.Success? <==> Product(m.Value(), n.Value()).Success?
      ensures r.Failure? ==> r.error == Product(m.Value(), n.Value()).error
      ensures r.Success? ==> fresh(r.value.data) && r.value.Value() == Product(m.Value(), n.Value()).value
    {
      if m.ColCount() != n.RowCount() {
        return Failure(InvalidOperation);
      }
      var result := Multiply(m, n);
      return Success(result);
    }

    /** The loops of `operator *` once the inner sizes agree. */
    static method Multiply(m: Matrix, n: Matrix) returns (result: Matrix)
      requires m.ColCount() == n.RowCount()
      ensures fresh(result.data)
      ensures result.Value() == MatrixProduct(m.Value(), n.Value())
    {
      result := new Matrix(m.RowCount(), n.ColCount());
      for i := 0 to m.RowCount()
        invariant fresh(result.data) && result.data.Length0 == m.RowCount() && result.data.Length1 == n.ColCount()
        invariant forall a, b :: 0 <= a < i && 0 <= b < n.ColCount() ==>
          result.data[a, b] == MatrixProduct(m.Value(), n.Value()).cells[a][b]
      {
        ProductRow(m, n, result, i);
      }
      ArrayValueIs(result.data, MatrixProduct(m.Value(), n.Value()));
    }

    /** The middle loop of `operator *`: row i of the product. */
    static method ProductRow(m: Matrix, n: Matrix, result: Matrix, i: nat)
      requires m.ColCount() == n.RowCount() && i < m.RowCount()
      requires result.data != m.data && result.data != n.data
      requires result.data.Length0 == m.RowCount() && result.data.Length1 == n.ColCount()
      modifies result.data
      ensures forall a, b :: 0 <= a < m.RowCount() && 0 <= b < n.ColCount() && a != i ==> result.data[a, b] == old(result.data[a, b])
      ensures forall b :: 0 <= b < n.ColCount() ==> result.data[i, b] == MatrixProduct(m.Value(), n.Value()).cells[i][b]
    {
      for j := 0 to n.ColCount()
        invariant forall a, b :: 0 <= a < m.RowCount() && 0 <= b < n.ColCount() && a != i ==> result.data[a, b] == old(result.data[a, b])
        invariant forall b :: 0 <= b < j ==> result.data[i, b] == MatrixProduct(m.Value(), n.Value()).cells[i][b]
      {
        var sum := RowTimesColumnOf(m, n, i, j);
        result.data[i, j] := sum;
      }
    }
  }
}
