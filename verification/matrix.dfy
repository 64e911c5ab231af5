/** `matrix::Matrix<T>` for integer elements: a dense `rows x cols` matrix
    stored in one vector, row by row or column by column, and the
    element-wise and product operators. The aligned allocator is left out:
    the storage is a sequence. Element values are unbounded integers and
    `T()` is 0. The `assert`s of `calculate_index` and of the operators are
    preconditions. */
module Matrix {

  /** `rows_`, `cols_`, `leading_dim_`, `data_` and `row_major_`. */
  datatype Matrix = Matrix(rows: nat, cols: nat, leadingDim: nat, data: seq<int>, rowMajor: bool)

  /** The storage holds exactly `rows * cols` elements. */
  predicate Valid(m: Matrix)
  {
    |m.data| == m.rows * m.cols
  }

  lemma MulMono(x: nat, y: nat, w: nat)
    requires x <= y
    ensures x * w <= y * w
  {
    var n: nat := y - x;
    assert y * w == x * w + n * w;
  }

  /** Offset `k` of storage laid out in lines of `width` elements, as a
      line and a place within it: `k / width` and `k % width`, computed by
      stepping over whole lines. */
  function Coord(k: nat, width: nat): (r: (nat, nat))
    requires width > 0
    ensures r.1 < width && k == r.0 * width + r.1
    decreases k
  {
    if k < width then (0, k)
    else
      var p := Coord(k - width, width);
      (p.0 + 1, p.1)
  }

  /** A line and a place within it are recovered from their offset. */
  lemma {:induction false} CoordOf(i: nat, j: nat, width: nat)
    requires j < width
    ensures Coord(i * width + j, width) == (i, j)
    decreases i
  {
    if i > 0 {
      assert i * width + j - width == (i - 1) * width + j;
      CoordOf(i - 1, j, width);
    }
  }

  /** Position `(i, j)` of a `rows x cols` grid laid out in lines of `cols`
      is in range, and `Coord` recovers it. */
  lemma Linear(i: nat, j: nat, rows: nat, cols: nat)
    requires i < rows && j < cols
    ensures i * cols + j < rows * cols
    ensures Coord(i * cols + j, cols) == (i, j)
  {
    MulMono(i + 1, rows, cols);
    CoordOf(i, j, cols);
  }

  /** An offset below `rows * cols` falls on one of the `rows` lines. */
  lemma Split(k: nat, rows: nat, cols: nat)
    requires k < rows * cols
    ensures cols > 0 && Coord(k, cols).0 < rows
  {
    if cols > 0 && Coord(k, cols).0 >= rows {
      MulMono(rows, Coord(k, cols).0, cols);
    }
  }

  /** `calculate_index`: `row * cols + col` in row-major storage and
      `col * rows + row` in column-major storage; always an offset into the
      storage. */
  function Index(m: Matrix, row: nat, col: nat): (r: nat)
    requires row < m.rows && col < m.cols
    ensures r < m.rows * m.cols
  {
    if m.rowMajor then
      Linear(row, col, m.rows, m.cols);
      row * m.cols + col
    else
      Linear(col, row, m.cols, m.rows);
      col * m.rows + row
  }

  /** The position stored at offset `k`, inverse of `calculate_index`. */
  function Position(m: Matrix, k: nat): (r: (nat, nat))
    requires k < m.rows * m.cols
    ensures r.0 < m.rows && r.1 < m.cols
  {
    if m.rowMajor then
      Split(k, m.rows, m.cols);
      Coord(k, m.cols)
    else
      Split(k, m.cols, m.rows);
      var c := Coord(k, m.rows);
      (c.1, c.0)
  }

  /** `calculate_index` is a one-to-one map of the positions onto the
      offsets: `Position` undoes it and it undoes `Position`. */
  lemma IndexRoundTrip(m: Matrix, row: nat, col: nat, k: nat)
    requires row < m.rows && col < m.cols && k < m.rows * m.cols
    ensures Position(m, Index(m, row, col)) == (row, col)
    ensures Index(m, Position(m, k).0, Position(m, k).1) == k
  {
    if m.rowMajor {
      Linear(row, col, m.rows, m.cols);
      Split(k, m.rows, m.cols);
    } else {
      Linear(col, row, m.cols, m.rows);
      Split(k, m.cols, m.rows);
    }
  }

  /** Distinct positions never share a storage slot. */
  lemma IndexInjective(m: Matrix, r1: nat, c1: nat, r2: nat, c2: nat)
    requires r1 < m.rows && c1 < m.cols && r2 < m.rows && c2 < m.cols
    requires Index(m, r1, c1) == Index(m, r2, c2)
    ensures r1 == r2 && c1 == c2
  {
    IndexRoundTrip(m, r1, c1, 0);
    IndexRoundTrip(m, r2, c2, 0);
  }

  /** The leading dimension: the distance in storage between consecutive
      rows of a row-major matrix (its column count) and between consecutive
      columns of a column-major one (its row count). */
  function LeadingDim(rows: nat, cols: nat, rowMajor: bool): nat
  {
    if rowMajor then cols else rows
  }

  /** The leading dimension is the stride of the storage: the next row of
      a row-major matrix, or the next column of a column-major one, lies
      that far on. */
  lemma LeadingDimIsStride(rows: nat, cols: nat, rowMajor: bool, i: nat, j: nat)
    requires i < rows && j < cols
    ensures var m := New(rows, cols, rowMajor);
            && (rowMajor && i + 1 < rows ==> Index(m, i + 1, j) == Index(m, i, j) + m.leadingDim)
            && (!rowMajor && j + 1 < cols ==> Index(m, i, j + 1) == Index(m, i, j) + m.leadingDim)
  {
  }

  /** The default constructor: an empty row-major matrix. */
  function Default(): (m: Matrix)
    ensures Valid(m) && m.rows == 0 && m.cols == 0 && m.rowMajor
  {
    Matrix(0, 0, 0, [], true)
  }

  /** The constructor with dimensions: `rows * cols` elements, every one
      `T()`, in the layout asked for. */
  function New(rows: nat, cols: nat, rowMajor: bool): (m: Matrix)
    ensures Valid(m) && m.rows == rows && m.cols == cols && m.rowMajor == rowMajor
    ensures m.leadingDim == LeadingDim(rows, cols, rowMajor)
    ensures forall i, j :: 0 <= i < rows && 0 <= j < cols ==> Get(m, i, j) == 0
  {
    Matrix(rows, cols, LeadingDim(rows, cols, rowMajor), seq(rows * cols, _ => 0), rowMajor)
  }

  /** `operator()`: the element at `(row, col)`. */
  function Get(m: Matrix, row: nat, col: nat): int
    requires Valid(m) && row < m.rows && col < m.cols
  {
    m.data[Index(m, row, col)]
  }

  /** `fill`: every element becomes `value`; shape and layout stay. */
  function Fill(m: Matrix, value: int): (r: Matrix)
    requires Valid(m)
    ensures Valid(r) && r.rows == m.rows && r.cols == m.cols && r.rowMajor == m.rowMajor
    ensures r.leadingDim == m.leadingDim
    ensures forall i, j :: 0 <= i < m.rows && 0 <= j < m.cols ==> Get(r, i, j) == value
  {
    m.(data := seq(|m.data|, _ => value))
  }

  /** A fresh row-major `rows x cols` result whose element `(i, j)` is
      `f(i, j)`: the constructor followed by one assignment per element, as
      the operators do. */
  function Build(rows: nat, cols: nat, f: (nat, nat) -> int): (r: Matrix)
    ensures Valid(r) && r.rows == rows && r.cols == cols && r.rowMajor
    ensures r.leadingDim == LeadingDim(rows, cols, true)
    ensures forall i, j :: 0 <= i < rows && 0 <= j < cols ==> Get(r, i, j) == f(i, j)
  {
    var r := Matrix(rows, cols, LeadingDim(rows, cols, true),
                    seq(rows * cols, k requires 0 <= k < rows * cols =>
                      Split(k, rows, cols);
                      var c := Coord(k, cols);
                      f(c.0, c.1)),
                    true);
    assert forall i, j :: 0 <= i < rows && 0 <= j < cols ==> Get(r, i, j) == f(i, j) by {
      forall i, j | 0 <= i < rows && 0 <= j < cols
        ensures Get(r, i, j) == f(i, j)
      {
        Linear(i, j, rows, cols);
      }
    }
    r
  }

  /** Both operands have the same shape, as the element-wise operators
      assert. */
  predicate SameShape(a: Matrix, b: Matrix)
  {
    Valid(a) && Valid(b) && a.rows == b.rows && a.cols == b.cols
  }

  /** `operator+` on two matrices: a row-major result of `a`'s shape holding
      the element-wise sums. */
  function Plus(a: Matrix, b: Matrix): (r: Matrix)
    requires SameShape(a, b)
    ensures Valid(r) && r.rows == a.rows && r.cols == a.cols && r.rowMajor
    ensures forall i, j :: 0 <= i < a.rows && 0 <= j < a.cols ==> Get(r, i, j) == Get(a, i, j) + Get(b, i, j)
  {
    Build(a.rows, a.cols, (i: nat, j: nat) => if i < a.rows && j < a.cols then Get(a, i, j) + Get(b, i, j) else 0)
  }

  /** `operator-` on two matrices: the element-wise differences. */
  function Minus(a: Matrix, b: Matrix): (r: Matrix)
    requires SameShape(a, b)
    ensures Valid(r) && r.rows == a.rows && r.cols == a.cols && r.rowMajor
    ensures forall i, j :: 0 <= i < a.rows && 0 <= j < a.cols ==> Get(r, i, j) == Get(a, i, j) - Get(b, i, j)
  {
    Build(a.rows, a.cols, (i: nat, j: nat) => if i < a.rows && j < a.cols then Get(a, i, j) - Get(b, i, j) else 0)
  }

  /** `operator+` with a scalar: `b` added to every element. */
  function PlusScalar(a: Matrix, b: int): (r: Matrix)
    requires Valid(a)
    ensures Valid(r) && r.rows == a.rows && r.cols == a.cols && r.rowMajor
    ensures forall i, j :: 0 <= i < a.rows && 0 <= j < a.cols ==> Get(r, i, j) == Get(a, i, j) + b
  {
    Build(a.rows, a.cols, (i: nat, j: nat) => if i < a.rows && j < a.cols then Get(a, i, j) + b else 0)
  }

  /** The same elements at every position, whatever the layouts. */
  predicate SameElements(a: Matrix, b: Matrix)
  {
    SameShape(a, b) && forall i, j :: 0 <= i < a.rows && 0 <= j < a.cols ==> Get(a, i, j) == Get(b, i, j)
  }

  /** Subtraction undoes addition, and addition of a scalar undoes the
      addition of its negation. */
  lemma MinusUndoesPlus(a: Matrix, b: Matrix, c: int)
    requires SameShape(a, b)
    ensures SameElements(Minus(Plus(a, b), b), a)
    ensures SameElements(PlusScalar(PlusScalar(a, c), -c), a)
  {
  }

  /** The inner loop of `operator*`: `T()` plus `a(i, k) * b(k, j)` for
      `k` from 0 up to `n`, added in that order. */
  function Dot(a: Matrix, b: Matrix, i: nat, j: nat, n: nat): int
    requires Valid(a) && Valid(b) && i < a.rows && j < b.cols && n <= a.cols && a.cols == b.rows
  {
    if n == 0 then 0 else Dot(a, b, i, j, n - 1) + Get(a, i, n - 1) * Get(b, n - 1, j)
  }

  /** `operator*`: defined when `a`'s column count is `b`'s row count; a
      row-major `a.rows x b.cols` result whose element `(i, j)` is the sum
      over `k` of `a(i, k) * b(k, j)`. */
  function Times(a: Matrix, b: Matrix): (r: Matrix)
    requires Valid(a) && Valid(b) && a.cols == b.rows
    ensures Valid(r) && r.rows == a.rows && r.cols == b.cols && r.rowMajor
    ensures forall i, j :: 0 <= i < a.rows && 0 <= j < b.cols ==> Get(r, i, j) == Dot(a, b, i, j, a.cols)
  {
    Build(a.rows, b.cols, (i: nat, j: nat) => if i < a.rows && j < b.cols then Dot(a, b, i, j, a.cols) else 0)
  }

  /** The `n x n` identity matrix, a reference for `IdentityTimes`; the
      library itself builds none. */
  function Identity(n: nat): (r: Matrix)
    ensures Valid(r) && r.rows == n && r.cols == n
    ensures forall i, j :: 0 <= i < n && 0 <= j < n ==> Get(r, i, j) == if i == j then 1 else 0
  {
    Build(n, n, (i: nat, j: nat) => if i == j then 1 else 0)
  }

  /** Part of the product with the identity on the left: the first `n`
      terms pick out `a(i, j)` once `i` is among them. */
  lemma {:induction false} DotWithIdentity(a: Matrix, i: nat, j: nat, n: nat)
    requires Valid(a) && i < a.rows && j < a.cols && n <= a.rows
    ensures Dot(Identity(a.rows), a, i, j, n) == if i < n then Get(a, i, j) else 0
  {
    if n > 0 {
      DotWithIdentity(a, i, j, n - 1);
    }
  }

  /** The identity is a left unit of `operator*`. */
  lemma IdentityTimes(a: Matrix)
    requires Valid(a)
    ensures SameElements(Times(Identity(a.rows), a), a)
  {
    var p := Times(Identity(a.rows), a);
    forall i, j | 0 <= i < a.rows && 0 <= j < a.cols
      ensures Get(p, i, j) == Get(a, i, j)
    {
      DotWithIdentity(a, i, j, a.rows);
    }
  }
}
