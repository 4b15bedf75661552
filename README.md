# Dense matrix product of the DFA trainer, in Dafny

The DFA (direct feedback alignment) trainer does its arithmetic on a small
dense `Matrix` type. A matrix has `Cols` entries per row, `Rows` rows, and a
flat `Data` buffer that holds the rows one after another. Its one piece of
real logic is `Mul(m, n)`. Both operands store their rows contiguously and
must have the same row width. `Mul` dots every row of `m` with every row of
`n`. The result has `m.Rows` columns and `n.Rows` rows, so, read as
`n.Rows` rows of `m.Rows` entries, it is n · mᵗ (the entries of m · nᵗ,
transposed). Its entries are produced by two nested stride loops: the outer one
runs over the rows of `n`, the inner one over the rows of `m`. A third loop
accumulates each dot product. When the row widths differ, `Mul` panics.

This project models that code and proves what it computes.

- `matrix.dfy`, module `Matrices`:
  - the `Matrix` datatype and its `WellFormed` layout invariant;
  - `Dot`, the dot product accumulated in the order of Go's `Mul`;
  - `Product`, the reference definition of the result: a `ShapeError` or
    a matrix;
  - `Mul`, the three loops of Go's `Mul` as a method, proved to return
    `Product(m, n)`.
- `mul_laws.dfy`, module `MulLaws`, proves laws of the product:
  - swapping the operands transposes the result;
  - `a` times `a` is symmetric;
  - the output is laid out one row of `n` after another;
  - a left operand with no rows gives a result with no columns;
  - the two products Go's `TestMul` expects;
  - every read `Mul`'s loops make is in bounds.

`WellFormed` states the size as `|data| == Stride(rows, cols)`. `Stride(r, w)`
is the value of a loop index that starts at 0 and advances by `w`, `r` times.
`WellFormedSize` proves that this is the usual `|data| == cols * rows`, and
`AtRowMajor` proves that entry (r, c) sits at index `r * cols + c`. The
proofs use `Stride` because it is how the loops of Go's `Mul` advance.

When `m` has no rows, `Mul` returns a matrix with `Cols == 0`
(main.go:22), which `WellFormed` rejects. So `Product` promises a
well-formed result only when `m.rows > 0`, and `EmptyLeftOperand` proves
that the product of such an `m` is `Ok(Matrix(0, n.rows, []))`.

## Model

| member | source | states |
|---|---|---|
| `Matrices.WellFormedSize` | main.go:10-14 | a matrix is well formed exactly when `cols > 0`, `rows >= 0` and the data holds `cols * rows` entries |
| `Matrices.AtRowMajor` | main.go:26-30 | row-major layout: entry (r, c) is in bounds and is stored at index `r * cols + c` |
| `Matrices.StrideIsProduct` | main.go:26-27 | an index that starts at 0 and advances by `w` reaches `r * w` after `r` steps |
| `Matrices.RowBounds` | main.go:26-30 | row `r < rows` of a well-formed matrix lies wholly inside its data |
| `Matrices.RowProductsAt` | main.go:27-33 | one pass of the inner loop appends, in order, row `c` of `m` dotted with the current row of `n`, for every `c < m.rows` |
| `Matrices.ProductRowsAt` | main.go:26-34 | after `p` outer passes the output holds `p * m.rows` entries; the entry at offset `Stride(r, m.rows) + c` (that is, `r * m.rows + c`) is row `c` of `m` dotted with row `r` of `n` |
| `Matrices.ProductLayout` | main.go:21-34 | the finished output has `m.rows * n.rows` entries, is well formed when `m.rows > 0`, and its entry (r, c) is row `c` of `m` dotted with row `r` of `n` |
| `Matrices.Product` | main.go:17-36 | shape error exactly when `m.cols != n.cols`, carrying both widths; otherwise `Cols == m.rows`, `Rows == n.rows`, `m.rows * n.rows` entries, entry (r, c) = row c of `m` · row r of `n` |
| `Matrices.Mul` | main.go:17-36 | the three loops return exactly `Product(m, n)`: they fail only on a row-width mismatch, and otherwise give the result shape `(m.rows, n.rows)` |
| `MulLaws.DotSymmetric` | main.go:28-31 | the accumulated dot product is the same with its operands swapped |
| `MulLaws.ProductSwap` | main.go:26-33 | `Mul(n, m)` is the transpose of `Mul(m, n)`: entry (r, c) of one equals entry (c, r) of the other |
| `MulLaws.ProductSelfSymmetric` | dfa_test.go:31-38 | `Mul(a, a)` is square (`a.rows` by `a.rows`) and symmetric |
| `MulLaws.ProductRowBlocks` | main.go:26-27 | ordering: row r of the output, the r-th block of `m.rows` entries, is the product of `m` with row r of `n` alone |
| `MulLaws.TestVectorProduct` | dfa_test.go:16-30 | `[[1,2],[3,4]]` times the single row `[1,2]` gives a 2-column, 1-row result with data `[5, 11]` |
| `MulLaws.TestSquareProduct` | dfa_test.go:31-39 | `[[1,2],[3,4]]` times itself gives data `[5, 11, 11, 25]` |
| `MulLaws.EmptyLeftOperand` | main.go:21-24 | when `m` has no rows the product is `Ok(Matrix(0, n.rows, []))`, a matrix with `Cols == 0` that is not well formed |
| `MulLaws.StrideReadInBounds` | main.go:26-30 | a stride-loop index (a multiple of `Cols` below the data length) plus any `k < Cols` is still below the data length |
| `MulLaws.MulReadsInBounds` | main.go:26-30 | every read `m.Data[j+k]` and `n.Data[i+k]` is in bounds, for any loop indices `i`, `j` that are multiples of `Cols` below `len(n.Data)`, `len(m.Data)` and any `k < Cols` |

## Left out

- Floating point: `float64` is modelled as `real`. So the rounding of the accumulated `sum` is not modelled. The additions still happen in the order of Go's `Mul` (k = 0 upwards).
- Ill-formed operands are excluded by `requires WellFormed(...)` on `Mul` and `Product`. With `Cols == 0` the stride loops of main.go never advance, so they run forever once `n` has data. With `Cols < 0` the indices move backwards and, once `n` has data, the loops never end (no entry is read). A data length that is not a multiple of `Cols` makes the loops read past the end, and a `Rows` that does not match the data length gives a result of the wrong size. Before any of this, a negative `m.Rows * n.Rows` makes the `make` at main.go:24 panic before the loops run. main.go checks none of these. Its callers are expected to size matrices correctly.
- The panic's message text is not modelled. `ShapeError` carries the two `Cols` values that the message prints.
- Pointers: operands are values, so the fact that `Mul` never changes its operands holds by construction. The model does not capture pointer identity, aliasing, the fresh allocation of the result, the capacity hint given to `make`, or a nil operand, which panics at main.go:18.
- The empty `main` function is not modelled.
- The tests in dfa_test.go call a `Mul` from another package that takes its arguments by value. The file that defines it is not part of this model. Only the expected values of `TestMul` are used, in the two test lemmas.
- The rest of the trainer is not part of this model. This covers the other matrix operations (`T`, `H`, `Sub`, `AppendOne`, the activations, `NewMatrix`, `NewRandMatrix`), the DFA training loops, the Adam update, random initialisation, and the complex-valued experiment.
