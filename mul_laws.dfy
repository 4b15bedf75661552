/**
 Laws of the row-by-row product `Matrices.Product` (and so of the method
 `Matrices.Mul`, which computes it): swapping the operands transposes the
 product, a matrix times itself is symmetric, the output is laid out one
 row of `n` after another, a left operand with no rows gives a result with
 no columns, the two products Go's `TestMul` checks, and the bounds of
 every read `Mul`'s loops make.
 */
module MulLaws {
  import opened Matrices

  /** Row r of a well-formed matrix as a sequence. */
  function Row(x: Matrix, r: int): (s: seq<real>)
    requires WellFormed(x) && 0 <= r < x.rows
    ensures |s| == x.cols
  {
    RowBounds(x, r);
    x.data[Stride(r, x.cols) .. Stride(r, x.cols) + x.cols]
  }

  /** Entry c of row r is the entry at (r, c). */
  lemma RowAt(x: Matrix, r: int, c: int)
    requires WellFormed(x) && 0 <= r < x.rows && 0 <= c < x.cols
    ensures Row(x, r)[c] == At(x, r, c)
  {
    RowBounds(x, r);
  }

  /** A one-row matrix is its own row 0. */
  lemma SingleRow(x: Matrix)
    requires WellFormed(x) && x.rows == 1
    ensures Row(x, 0) == x.data
  {
  }

  /** The dot product does not depend on which operand comes first. */
  lemma {:induction false} DotSymmetric(a: seq<real>, j: int, b: seq<real>, i: int, k: int)
    requires 0 <= k && 0 <= j && j + k <= |a| && 0 <= i && i + k <= |b|
    ensures Dot(a, j, b, i, k) == Dot(b, i, a, j, k)
    decreases k
  {
    if k > 0 {
      DotSymmetric(a, j, b, i, k - 1);
    }
  }

  /** Reading through a slice of `b` is reading `b` at the shifted offset. */
  lemma {:induction false} DotSlice(a: seq<real>, j: int, b: seq<real>, lo: int, hi: int, i: int, k: int)
    requires 0 <= lo <= hi <= |b| && 0 <= k && 0 <= j && j + k <= |a| && 0 <= i && lo + i + k <= hi
    ensures Dot(a, j, b[lo..hi], i, k) == Dot(a, j, b, lo + i, k)
    decreases k
  {
    if k > 0 {
      DotSlice(a, j, b, lo, hi, i, k - 1);
      assert b[lo..hi][i + k - 1] == b[lo + i + k - 1];
    }
  }

  /** Swapping the operands of the product transposes it. */
  lemma ProductSwap(m: Matrix, n: Matrix)
    requires Compatible(m, n)
    ensures Product(m, n).Ok? && Product(n, m).Ok?
    ensures forall r, c :: 0 <= r < n.rows && 0 <= c < m.rows ==>
      At(Product(m, n).value, r, c) == At(Product(n, m).value, c, r)
  {
    forall r, c | 0 <= r < n.rows && 0 <= c < m.rows
      ensures At(Product(m, n).value, r, c) == At(Product(n, m).value, c, r)
    {
      RowBounds(m, c);
      RowBounds(n, r);
      DotSymmetric(m.data, Stride(c, m.cols), n.data, Stride(r, n.cols), m.cols);
    }
  }

  /** A matrix multiplied by itself gives a symmetric product. */
  lemma ProductSelfSymmetric(a: Matrix)
    requires WellFormed(a)
    ensures Product(a, a).Ok? && Product(a, a).value.cols == Product(a, a).value.rows == a.rows
    ensures forall r, c :: 0 <= r < a.rows && 0 <= c < a.rows ==>
      At(Product(a, a).value, r, c) == At(Product(a, a).value, c, r)
  {
    ProductSwap(a, a);
  }

  /** Row r of `n` on its own, as a one-row matrix. */
  function RowMatrix(n: Matrix, r: int): (x: Matrix)
    requires WellFormed(n) && 0 <= r < n.rows
    ensures WellFormed(x) && x.cols == n.cols && x.rows == 1
  {
    assert Stride(1, n.cols) == n.cols;
    Matrix(n.cols, 1, Row(n, r))
  }

  /** One entry of ProductRowBlocks: both sides are row c of `m` dotted with row r of `n`. */
  lemma ProductRowEntry(m: Matrix, n: Matrix, r: int, c: int)
    requires Compatible(m, n) && 0 <= r < n.rows && 0 <= c < m.rows
    ensures Row(Product(m, n).value, r)[c] == Row(Product(m, RowMatrix(n, r)).value, 0)[c]
  {
    var whole := Product(m, n).value;
    var part := Product(m, RowMatrix(n, r)).value;
    RowAt(whole, r, c);
    RowAt(part, 0, c);
    RowBounds(m, c);
    RowBounds(n, r);
    DotSlice(m.data, Stride(c, m.cols), n.data, Stride(r, n.cols), Stride(r, n.cols) + n.cols, 0, n.cols);
  }

  /**
   The output is produced one row of `n` at a time: its r-th row is the
   product of `m` with row r of `n` alone.
   */
  lemma ProductRowBlocks(m: Matrix, n: Matrix, r: int)
    requires Compatible(m, n) && 0 <= r < n.rows && m.rows > 0
    ensures Row(Product(m, n).value, r) == Product(m, RowMatrix(n, r)).value.data
  {
    var part := Product(m, RowMatrix(n, r)).value;
    SingleRow(part);
    forall c | 0 <= c < m.rows
      ensures Row(Product(m, n).value, r)[c] == Row(part, 0)[c]
    {
      ProductRowEntry(m, n, r, c);
    }
  }

  /** The test matrix: two rows, (1, 2) and (3, 4). */
  function TestSquare(): (a: Matrix)
    ensures WellFormed(a)
  {
    assert Stride(2, 2) == 4;
    Matrix(2, 2, [1.0, 2.0, 3.0, 4.0])
  }

  /** The first product Go's `TestMul` checks: a 2 x 2 matrix times the single row (1, 2). */
  lemma TestVectorProduct()
    ensures WellFormed(Matrix(2, 1, [1.0, 2.0]))
    ensures Product(TestSquare(), Matrix(2, 1, [1.0, 2.0])) == Ok(Matrix(2, 1, [5.0, 11.0]))
  {
    var a := TestSquare();
    var b := Matrix(2, 1, [1.0, 2.0]);
    assert Stride(1, 2) == 2;
    var ab := Product(a, b).value;
    assert RowDot(a, 0, b, 0) == 5.0;
    assert RowDot(a, 1, b, 0) == 11.0;
    assert ab.data == [5.0, 11.0] by {
      assert At(ab, 0, 0) == ab.data[0];
      assert At(ab, 0, 1) == ab.data[1];
    }
  }

  /** The second product Go's `TestMul` checks: the 2 x 2 matrix times itself. */
  lemma TestSquareProduct()
    ensures Product(TestSquare(), TestSquare()) == Ok(Matrix(2, 2, [5.0, 11.0, 11.0, 25.0]))
  {
    var a := TestSquare();
    var aa := Product(a, a).value;
    assert Stride(1, 2) == 2;
    assert RowDot(a, 0, a, 0) == 5.0;
    assert RowDot(a, 1, a, 0) == 11.0;
    assert RowDot(a, 0, a, 1) == 11.0;
    assert RowDot(a, 1, a, 1) == 25.0;
    assert aa.data == [5.0, 11.0, 11.0, 25.0] by {
      assert At(aa, 0, 0) == aa.data[0];
      assert At(aa, 0, 1) == aa.data[1];
      assert At(aa, 1, 0) == aa.data[2];
      assert At(aa, 1, 1) == aa.data[3];
    }
  }

  /**
   When `m` has no rows the product has `Cols == 0` and no data, so it is
   not itself well formed.
   */
  lemma EmptyLeftOperand(m: Matrix, n: Matrix)
    requires Compatible(m, n) && m.rows == 0
    ensures Product(m, n) == Ok(Matrix(0, n.rows, []))
    ensures !WellFormed(Product(m, n).value)
  {
  }

  /**
   A loop index that starts at 0 and advances by `x.cols` takes only values
   that are multiples of `x.cols`; while it is below |x.data|, every read at
   it plus k < x.cols is in bounds.
   */
  lemma StrideReadInBounds(x: Matrix, j: int, k: int)
    requires WellFormed(x) && 0 <= j < |x.data| && j % x.cols == 0 && 0 <= k < x.cols
    ensures j + k < |x.data|
  {
    WellFormedSize(x);
    var q := j / x.cols;
    assert j == q * x.cols;
    StrideIsProduct(q, x.cols);
    if q >= x.rows {
      StrideMono(x.rows, q, x.cols);
      StrideIsProduct(x.rows, x.cols);
      assert false;
    }
    RowBounds(x, q);
  }

  /**
   Every read `Mul` makes, m.data[j + k] and n.data[i + k], is in bounds:
   i and j are the indices of the stride loops (multiples of the width,
   below the length of the data they run over) and k is below the width.
   */
  lemma MulReadsInBounds(m: Matrix, n: Matrix, i: int, j: int, k: int)
    requires Compatible(m, n)
    requires 0 <= i < |n.data| && i % m.cols == 0
    requires 0 <= j < |m.data| && j % m.cols == 0
    requires 0 <= k < m.cols
    ensures j + k < |m.data| && i + k < |n.data|
  {
    StrideReadInBounds(m, j, k);
    StrideReadInBounds(n, i, k);
  }
}
