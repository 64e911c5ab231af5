/** The constructor of `Matrix` as written sets `leading_dim_` to the row
    count of a row-major matrix and to the column count of a column-major
    one. The leading dimension of dense storage is the distance between
    the starts of consecutive rows (row-major) or columns (column-major),
    which is the other count: a row-major `2 x 3` matrix reports 2 while
    its rows lie 3 apart. `Matrix.New` uses the corrected value, for which
    `Matrix.LeadingDimIsStride` holds. */
module MatrixFindings {
  import opened Matrix

  /** The constructor with dimensions as written. */
  function NewAsWritten(rows: nat, cols: nat, rowMajor: bool): (m: Matrix)
    ensures Valid(m) && m.rows == rows && m.cols == cols && m.rowMajor == rowMajor
    ensures m.leadingDim == if rowMajor then rows else cols
    ensures m.data == New(rows, cols, rowMajor).data
  {
    Matrix(rows, cols, if rowMajor then rows else cols, seq(rows * cols, _ => 0), rowMajor)
  }

  /** Counterexample: in a row-major `2 x 3` matrix the second row starts
      3 elements after the first, but the leading dimension as written is
      2; the corrected constructor reports 3. The same happens for a
      column-major `3 x 2` matrix. */
  lemma AsWrittenLeadingDimIsNotStride()
    ensures var m := NewAsWritten(2, 3, true);
            Index(m, 1, 0) - Index(m, 0, 0) == 3 && m.leadingDim == 2
    ensures var m := NewAsWritten(3, 2, false);
            Index(m, 0, 1) - Index(m, 0, 0) == 3 && m.leadingDim == 2
    ensures New(2, 3, true).leadingDim == 3 && New(3, 2, false).leadingDim == 3
  {
  }

  /** The two constructors agree exactly on square matrices. */
  lemma AsWrittenAgreesOnSquare(rows: nat, cols: nat, rowMajor: bool)
    ensures NewAsWritten(rows, cols, rowMajor) == New(rows, cols, rowMajor) <==> rows == cols
  {
  }
}
