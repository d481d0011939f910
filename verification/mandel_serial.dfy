/** The host-side Mandelbrot image the SYCL sample validates against: rows of counts filled by a
    nested loop. */
module MandelSerialHost {
  import opened MandelPoint

  /** `MandelSerial`: the dimensions and the iteration cap it was built with, and the image `p`. */
  class MandelSerial {
    const rowCount: int
    const colCount: int
    const maxIterations: int
    const p: array2<int>

    ghost predicate Valid()
      reads this
    {
      p.Length0 == rowCount && p.Length1 == colCount
    }

    /** Allocates `row_count` rows of `col_count` cells each. */
    constructor(rowCount: int, colCount: int, maxIterations: int)
      requires 0 <= rowCount && 0 <= colCount
      ensures Valid() && fresh(p)
      ensures this.rowCount == rowCount && this.colCount == colCount && this.maxIterations == maxIterations
    {
      this.rowCount := rowCount;
      this.colCount := colCount;
      this.maxIterations := maxIterations;
      p := new int[rowCount, colCount];
    }

    /** Every cell `p[i][j]` gets the escape count of the point it scales to. */
    method Evaluate()
      requires Valid()
      modifies p
      ensures forall i, j :: 0 <= i < rowCount && 0 <= j < colCount ==>
        p[i, j] == PixelCount(i, j, rowCount, colCount, maxIterations)
    {
      var i := 0;
      while i < rowCount
        invariant 0 <= i <= rowCount
        invariant forall i', j' :: 0 <= i' < i && 0 <= j' < colCount ==>
          p[i', j'] == PixelCount(i', j', rowCount, colCount, maxIterations)
      {
        var j := 0;
        while j < colCount
          invariant 0 <= j <= colCount
          invariant forall i', j' :: 0 <= i' < i && 0 <= j' < colCount ==>
            p[i', j'] == PixelCount(i', j', rowCount, colCount, maxIterations)
          invariant forall j' :: 0 <= j' < j ==>
            p[i, j'] == PixelCount(i, j', rowCount, colCount, maxIterations)
        {
          p[i, j] := Point(Complex(ScaleRow(i, rowCount), ScaleCol(j, colCount)), maxIterations);
          j := j + 1;
        }
        i := i + 1;
      }
    }

    /** The image itself, shared with the caller. */
    method GetBuffer() returns (buffer: array2<int>)
      requires Valid()
      ensures buffer == p && buffer.Length0 == rowCount && buffer.Length1 == colCount
    {
      return p;
    }

    /** The row count given at construction, which is the image's number of rows. */
    method GetRowCount() returns (rows: int)
      requires Valid()
      ensures rows == rowCount && rows == p.Length0
    {
      return rowCount;
    }

    /** The column count given at construction, which is the image's number of columns. */
    method GetColCount() returns (cols: int)
      requires Valid()
      ensures cols == colCount && cols == p.Length1
    {
      return colCount;
    }
  }
}
