/**
 A dense matrix stored row-major in a flat buffer, and the row-by-row
 product `Mul(m, n)`: every row of `m` dotted with every row of `n`.
 Read as `n.rows` rows of `m.rows` entries, the result is n · mᵗ (the
 entries of m · nᵗ, transposed).
 */
module Matrices {

  /** `cols` entries per row, `rows` rows, `data` the rows one after another. */
  datatype Matrix = Matrix(cols: int, rows: int, data: seq<real>)

  /** The outcome of `Mul`: the product, or the shape mismatch that makes it panic. */
  datatype MulResult = Ok(value: Matrix) | ShapeError(left: int, right: int)

  /**
   The layout invariant every operand of `Mul` must satisfy: positive row
   width and exactly `rows` rows of data. The size is stated as the offset
   of row `rows`; WellFormedSize shows it is cols * rows.
   */
  predicate WellFormed(x: Matrix)
  {
    x.cols > 0 && x.rows >= 0 && |x.data| == Stride(x.rows, x.cols)
  }

  lemma WellFormedSize(x: Matrix)
    ensures WellFormed(x) <==> x.cols > 0 && x.rows >= 0 && |x.data| == x.cols * x.rows
  {
    if x.rows >= 0 {
      StrideIsProduct(x.rows, x.cols);
    }
  }

  /** Both operands well formed and rows of equal length. */
  predicate Compatible(m: Matrix, n: Matrix)
  {
    WellFormed(m) && WellFormed(n) && m.cols == n.cols
  }

  /**
   Stride(r, w) is where row r starts when every row holds w entries:
   the value of a loop index that starts at 0 and advances by w, r times.
   */
  function Stride(r: int, w: int): int
    requires r >= 0
    decreases r
  {
    if r == 0 then 0 else Stride(r - 1, w) + w
  }

  lemma {:induction false} StrideIsProduct(r: int, w: int)
    requires r >= 0
    ensures Stride(r, w) == r * w
    decreases r
  {
    if r > 0 {
      StrideIsProduct(r - 1, w);
      assert (r - 1) * w + w == r * w;
    }
  }

  /** With w > 0 later rows start strictly later. */
  lemma {:induction false} StrideMono(a: int, b: int, w: int)
    requires 0 <= a <= b && 0 <= w
    ensures Stride(a, w) <= Stride(b, w)
    ensures a < b && w > 0 ==> Stride(a, w) < Stride(b, w)
    decreases b
  {
    if a < b {
      StrideMono(a, b - 1, w);
    }
  }

  /** Row `r` of a well-formed matrix occupies data[Stride(r, cols) .. Stride(r + 1, cols)]. */
  lemma RowBounds(x: Matrix, r: int)
    requires WellFormed(x) && 0 <= r < x.rows
    ensures 0 <= Stride(r, x.cols) && Stride(r, x.cols) + x.cols <= |x.data|
  {
    StrideMono(0, r, x.cols);
    StrideMono(r + 1, x.rows, x.cols);
  }

  /** Entry (r, c) of a well-formed matrix: column c of row r. */
  function At(x: Matrix, r: int, c: int): real
    requires WellFormed(x) && 0 <= r < x.rows && 0 <= c < x.cols
  {
    RowBounds(x, r);
    x.data[Stride(r, x.cols) + c]
  }

  /** The layout is row-major: entry (r, c) is stored at index r * cols + c. */
  lemma AtRowMajor(x: Matrix, r: int, c: int)
    requires WellFormed(x) && 0 <= r < x.rows && 0 <= c < x.cols
    ensures 0 <= r * x.cols + c < |x.data| && At(x, r, c) == x.data[r * x.cols + c]
  {
    RowBounds(x, r);
    StrideIsProduct(r, x.cols);
  }

  /**
   The sum of a[j+t] * b[i+t] for t = 0 .. k-1, accumulated from t = 0
   upwards (the order in which `Mul` adds the products).
   */
  function Dot(a: seq<real>, j: int, b: seq<real>, i: int, k: int): real
    requires 0 <= k && 0 <= j && j + k <= |a| && 0 <= i && i + k <= |b|
    decreases k
  {
    if k == 0 then 0.0 else Dot(a, j, b, i, k - 1) + a[j + k - 1] * b[i + k - 1]
  }

  /** The dot product of row `rm` of `m` with row `rn` of `n`. */
  function RowDot(m: Matrix, rm: int, n: Matrix, rn: int): real
    requires Compatible(m, n) && 0 <= rm < m.rows && 0 <= rn < n.rows
  {
    RowBounds(m, rm);
    RowBounds(n, rn);
    Dot(m.data, Stride(rm, m.cols), n.data, Stride(rn, n.cols), m.cols)
  }

  /** Row `rn` of `n` dotted with rows 0 .. q-1 of `m`, in that order. */
  function RowProducts(m: Matrix, n: Matrix, rn: int, q: int): seq<real>
    requires Compatible(m, n) && 0 <= rn < n.rows && 0 <= q <= m.rows
    decreases q
  {
    if q == 0 then [] else RowProducts(m, n, rn, q - 1) + [RowDot(m, q - 1, n, rn)]
  }

  /** The products for rows 0 .. p-1 of `n`, row after row. */
  function ProductRows(m: Matrix, n: Matrix, p: int): seq<real>
    requires Compatible(m, n) && 0 <= p <= n.rows
    decreases p
  {
    if p == 0 then [] else ProductRows(m, n, p - 1) + RowProducts(m, n, p - 1, m.rows)
  }

  lemma {:induction false} RowProductsAt(m: Matrix, n: Matrix, rn: int, q: int)
    requires Compatible(m, n) && 0 <= rn < n.rows && 0 <= q <= m.rows
    ensures |RowProducts(m, n, rn, q)| == q
    ensures forall c :: 0 <= c < q ==> RowProducts(m, n, rn, q)[c] == RowDot(m, c, n, rn)
    decreases q
  {
    if q > 0 {
      RowProductsAt(m, n, rn, q - 1);
    }
  }

  /** Row r of p rows, each w wide, ends no later than row p starts. */
  lemma StrideRowEnd(r: int, p: int, w: int)
    requires 0 <= r < p && 0 <= w
    ensures 0 <= Stride(r, w) && Stride(r, w) + w <= Stride(p, w)
  {
    StrideMono(0, r, w);
    StrideMono(r + 1, p, w);
  }

  /** Appending row p - 1 keeps the earlier rows' entries where they were. */
  lemma {:induction false} ProductRowsStep(m: Matrix, n: Matrix, p: int, r: int, c: int)
    requires Compatible(m, n) && 0 < p <= n.rows && 0 <= r < p && 0 <= c < m.rows
    requires |ProductRows(m, n, p - 1)| == Stride(p - 1, m.rows)
    requires 0 <= Stride(r, m.rows) && (r < p - 1 ==> Stride(r, m.rows) + m.rows <= Stride(p - 1, m.rows))
    requires r < p - 1 ==> ProductRows(m, n, p - 1)[Stride(r, m.rows) + c] == RowDot(m, c, n, r)
    ensures 0 <= Stride(r, m.rows) + c < |ProductRows(m, n, p)|
    ensures ProductRows(m, n, p)[Stride(r, m.rows) + c] == RowDot(m, c, n, r)
  {
    var prefix := ProductRows(m, n, p - 1);
    var last := RowProducts(m, n, p - 1, m.rows);
    RowProductsAt(m, n, p - 1, m.rows);
    StrideRowEnd(r, p, m.rows);
    if r < p - 1 {
      StrideRowEnd(r, p - 1, m.rows);
      assert (prefix + last)[Stride(r, m.rows) + c] == prefix[Stride(r, m.rows) + c];
    } else {
      assert (prefix + last)[Stride(r, m.rows) + c] == last[c];
    }
  }

  /** The products for row r of `n` fill the r-th block of m.rows entries. */
  lemma {:induction false} ProductRowsAt(m: Matrix, n: Matrix, p: int)
    requires Compatible(m, n) && 0 <= p <= n.rows
    ensures |ProductRows(m, n, p)| == Stride(p, m.rows)
    ensures forall r :: 0 <= r < p ==> 0 <= Stride(r, m.rows) && Stride(r, m.rows) + m.rows <= Stride(p, m.rows)
    ensures forall r, c :: 0 <= r < p && 0 <= c < m.rows ==>
      ProductRows(m, n, p)[Stride(r, m.rows) + c] == RowDot(m, c, n, r)
    decreases p
  {
    forall r | 0 <= r < p
      ensures 0 <= Stride(r, m.rows) && Stride(r, m.rows) + m.rows <= Stride(p, m.rows)
    {
      StrideRowEnd(r, p, m.rows);
    }
    if p > 0 {
      ProductRowsAt(m, n, p - 1);
      RowProductsAt(m, n, p - 1, m.rows);
      forall r, c | 0 <= r < p && 0 <= c < m.rows
        ensures ProductRows(m, n, p)[Stride(r, m.rows) + c] == RowDot(m, c, n, r)
      {
        StrideRowEnd(r, p, m.rows);
        ProductRowsStep(m, n, p, r, c);
      }
    }
  }

  /** The product's data, read back through the row-major layout. */
  lemma ProductLayout(m: Matrix, n: Matrix)
    requires Compatible(m, n)
    ensures var o := Matrix(m.rows, n.rows, ProductRows(m, n, n.rows));
      && |o.data| == m.rows * n.rows
      && (m.rows > 0 ==> WellFormed(o))
      && forall r, c :: 0 <= r < n.rows && 0 <= c < m.rows ==> At(o, r, c) == RowDot(m, c, n, r)
  {
    var o := Matrix(m.rows, n.rows, ProductRows(m, n, n.rows));
    ProductRowsAt(m, n, n.rows);
    StrideIsProduct(n.rows, m.rows);
  }

  /**
   The product as a value: a shape error when the row lengths differ,
   otherwise a matrix with m.rows columns and n.rows rows whose entry
   (r, c) is row c of `m` dotted with row r of `n`.
   */
  function Product(m: Matrix, n: Matrix): (res: MulResult)
    requires WellFormed(m) && WellFormed(n)
    ensures res.ShapeError? <==> m.cols != n.cols
    ensures res.ShapeError? ==> res.left == m.cols && res.right == n.cols
    ensures res.Ok? ==>
      && res.value.cols == m.rows && res.value.rows == n.rows
      && |res.value.data| == m.rows * n.rows
      && (m.rows > 0 ==> WellFormed(res.value))
      && forall r, c :: 0 <= r < n.rows && 0 <= c < m.rows ==> At(res.value, r, c) == RowDot(m, c, n, r)
  {
    if m.cols != n.cols then
      ShapeError(m.cols, n.cols)
    else
      ProductLayout(m, n);
      Ok(Matrix(m.rows, n.rows, ProductRows(m, n, n.rows)))
  }

  /**
   The loops of Go's `Mul` in main.go: the outer one strides over `n.data`
   one row at a time, the middle one over `m.data`, and the inner one
   accumulates the dot product; each sum is appended to the output.
   */
  method Mul(m: Matrix, n: Matrix) returns (res: MulResult)
    requires WellFormed(m) && WellFormed(n)
    ensures res == Product(m, n)
    ensures res.ShapeError? <==> m.cols != n.cols
    ensures res.Ok? ==> res.value.cols == m.rows && res.value.rows == n.rows
  {
    if m.cols != n.cols {
      return ShapeError(m.cols, n.cols);
    }
    var out: seq<real> := [];
    var i := 0;
    ghost var rn := 0;
    while i < |n.data|
      invariant 0 <= rn <= n.rows && i == Stride(rn, m.cols)
      invariant out == ProductRows(m, n, rn)
      decreases n.rows - rn
    {
      assert rn < n.rows;
      RowBounds(n, rn);
      var j := 0;
      ghost var rm := 0;
      while j < |m.data|
        invariant 0 <= rm <= m.rows && j == Stride(rm, m.cols)
        invariant out == ProductRows(m, n, rn) + RowProducts(m, n, rn, rm)
        decreases m.rows - rm
      {
        assert rm < m.rows;
        RowBounds(m, rm);
        var sum := 0.0;
        var k := 0;
        while k < m.cols
          invariant 0 <= k <= m.cols
          invariant sum == Dot(m.data, j, n.data, i, k)
        {
          sum := sum + m.data[j + k] * n.data[i + k];
          k := k + 1;
        }
        out := out + [sum];
        j := j + m.cols;
        rm := rm + 1;
      }
      if rm < m.rows {
        StrideMono(rm, m.rows, m.cols);
      }
      i := i + m.cols;
      rn := rn + 1;
    }
    if rn < n.rows {
      StrideMono(rn, n.rows, n.cols);
    }
    res := Ok(Matrix(m.rows, n.rows, out));
  }
}
