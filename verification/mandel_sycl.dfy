/** The templated Mandelbrot class of the SYCL sample: a `row_count` x `col_count` buffer of escape
    counts, its evaluation, and the validation against another image. */
module MandelSycl {
  import opened Numeric
  import opened MandelPoint
  import Mandel

  /** The share of differing cells the validation still accepts. */
  const TOLERANCE: real := 0.05

  /** `diff` of `total` cells are within the tolerance: the quotient compares less than 0.05. With
      no cells the quotient is not a number and compares false. */
  predicate WithinTolerance(diff: int, total: int) {
    total > 0 && (diff as real) / (total as real) < TOLERANCE
  }

  /** The tolerance test in integers: fewer than one cell in twenty differs. */
  lemma WithinToleranceExact(diff: int, total: int)
    ensures WithinTolerance(diff, total) <==> total > 0 && 20 * diff < total
  {
    if total > 0 {
      QuotientCompare(diff as real, total as real, TOLERANCE);
    }
  }

  /** The two samples draw the line differently: when exactly one cell in twenty differs, the
      compiler sample's check passes while this validation fails, and with no cells at all the
      check passes while the validation fails; everywhere else they agree. */
  lemma ToleranceBoundary(diff: int, total: int)
    requires total >= 0
    ensures total == 0 || 20 * diff == total ==>
      !Mandel.ExceedsTolerance(diff, total) && !WithinTolerance(diff, total)
    ensures total > 0 && 20 * diff != total ==>
      (WithinTolerance(diff, total) <==> !Mandel.ExceedsTolerance(diff, total))
  {
    WithinToleranceExact(diff, total);
    Mandel.ExceedsToleranceExact(diff, total);
  }

  /** The number of columns below `n` in row `i` where `x` and `y` differ. */
  function RowDiff(x: array2<int>, y: array2<int>, i: int, n: int): nat
    reads x, y
    requires 0 <= i < x.Length0 && i < y.Length0 && 0 <= n <= x.Length1 && n <= y.Length1
  {
    if n == 0 then 0 else RowDiff(x, y, i, n - 1) + (if x[i, n - 1] != y[i, n - 1] then 1 else 0)
  }

  /** The number of cells in the first `m` rows and `cols` columns where `x` and `y` differ. */
  function GridDiff(x: array2<int>, y: array2<int>, m: int, cols: int): nat
    reads x, y
    requires 0 <= m <= x.Length0 && m <= y.Length0 && 0 <= cols <= x.Length1 && cols <= y.Length1
  {
    if m == 0 then 0 else GridDiff(x, y, m - 1, cols) + RowDiff(x, y, m - 1, cols)
  }

  /** At most `n` columns of a row differ, and none do exactly when the row agrees on them. */
  lemma {:induction false} RowDiffSpec(x: array2<int>, y: array2<int>, i: int, n: int)
    requires 0 <= i < x.Length0 && i < y.Length0 && 0 <= n <= x.Length1 && n <= y.Length1
    ensures RowDiff(x, y, i, n) <= n
    ensures RowDiff(x, y, i, n) == 0 <==> forall j :: 0 <= j < n ==> x[i, j] == y[i, j]
  {
    if n > 0 {
      RowDiffSpec(x, y, i, n - 1);
    }
  }

  /** At most `m * cols` cells differ, and none do exactly when the grids agree on them. */
  lemma {:induction false} GridDiffSpec(x: array2<int>, y: array2<int>, m: int, cols: int)
    requires 0 <= m <= x.Length0 && m <= y.Length0 && 0 <= cols <= x.Length1 && cols <= y.Length1
    ensures GridDiff(x, y, m, cols) <= m * cols
    ensures GridDiff(x, y, m, cols) == 0 <==>
      forall i, j :: 0 <= i < m && 0 <= j < cols ==> x[i, j] == y[i, j]
  {
    if m > 0 {
      GridDiffSpec(x, y, m - 1, cols);
      RowDiffSpec(x, y, m - 1, cols);
      assert (m - 1) * cols + cols == m * cols;
    }
  }

  /** Two non-empty images that agree on every cell pass the validation. */
  lemma AgreementPasses(x: array2<int>, y: array2<int>, rows: int, cols: int)
    requires 0 < rows == x.Length0 == y.Length0 && 0 < cols == x.Length1 == y.Length1
    requires forall i, j :: 0 <= i < rows && 0 <= j < cols ==> x[i, j] == y[i, j]
    ensures WithinTolerance(GridDiff(x, y, rows, cols), rows * cols)
  {
    GridDiffSpec(x, y, rows, cols);
    WithinToleranceExact(0, rows * cols);
  }

  /** `MandelParallel<row_count, col_count, max_iterations>`: the template arguments are the
      constant fields, and `b` is the buffer the kernel writes. */
  class MandelParallel {
    const rowCount: int
    const colCount: int
    const maxIterations: int
    const b: array2<int>

    ghost predicate Valid()
      reads this
    {
      b.Length0 == rowCount && b.Length1 == colCount
    }

    /** Allocates the `row_count` x `col_count` buffer. */
    constructor(rowCount: int, colCount: int, maxIterations: int)
      requires 0 <= rowCount && 0 <= colCount
      ensures Valid() && fresh(b)
      ensures this.rowCount == rowCount && this.colCount == colCount && this.maxIterations == maxIterations
    {
      this.rowCount := rowCount;
      this.colCount := colCount;
      this.maxIterations := maxIterations;
      b := new int[rowCount, colCount];
    }

    /** The kernel, one work-item per cell: cell `(i, j)` gets the escape count of the point it
        scales to. */
    method Evaluate()
      requires Valid()
      modifies b
      ensures forall i, j :: 0 <= i < rowCount && 0 <= j < colCount ==>
        b[i, j] == PixelCount(i, j, rowCount, colCount, maxIterations)
    {
      var i := 0;
      while i < rowCount
        invariant 0 <= i <= rowCount
        invariant forall i', j' :: 0 <= i' < i && 0 <= j' < colCount ==>
          b[i', j'] == PixelCount(i', j', rowCount, colCount, maxIterations)
      {
        var j := 0;
        while j < colCount
          invariant 0 <= j <= colCount
          invariant forall i', j' :: 0 <= i' < i && 0 <= j' < colCount ==>
            b[i', j'] == PixelCount(i', j', rowCount, colCount, maxIterations)
          invariant forall j' :: 0 <= j' < j ==>
            b[i, j'] == PixelCount(i, j', rowCount, colCount, maxIterations)
        {
          b[i, j] := Point(Complex(ScaleRow(i, rowCount), ScaleCol(j, colCount)), maxIterations);
          j := j + 1;
        }
        i := i + 1;
      }
    }

    /** Compares `pBufferToCompare`, of `rowMax` x `colMax` cells, with the buffer: -1 when the
        sizes differ, otherwise 0 exactly when the share of differing cells is below the
        tolerance. */
    method ValidatingResult(pBufferToCompare: array2<int>, rowMax: int, colMax: int) returns (ret: int)
      requires Valid() && pBufferToCompare.Length0 == rowMax && pBufferToCompare.Length1 == colMax
      ensures ret == 0 || ret == -1
      ensures rowMax != rowCount || colMax != colCount ==> ret == -1
      ensures rowMax == rowCount && colMax == colCount ==>
        (ret == 0 <==> WithinTolerance(GridDiff(pBufferToCompare, b, rowCount, colCount), rowCount * colCount))
    {
      if rowMax != rowCount || colMax != colCount {
        return -1;
      }
      var diff := 0;
      var i := 0;
      while i < rowCount
        invariant 0 <= i <= rowCount
        invariant diff == GridDiff(pBufferToCompare, b, i, colCount)
      {
        var j := 0;
        while j < colCount
          invariant 0 <= j <= colCount
          invariant diff == GridDiff(pBufferToCompare, b, i, colCount) + RowDiff(pBufferToCompare, b, i, j)
        {
          if pBufferToCompare[i, j] != b[i, j] {
            diff := diff + 1;
          }
          j := j + 1;
        }
        i := i + 1;
      }
      if WithinTolerance(diff, rowCount * colCount) {
        return 0;
      } else {
        return -1;
      }
    }
  }
}
