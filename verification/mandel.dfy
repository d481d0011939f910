/** The Mandelbrot image of the compiler sample: the parameters, the row-major image held by
    `Mandel`, its accessors, the serial evaluation, and the check that compares two images. */
module Mandel {
  import opened Numeric
  import opened MandelPoint

  const ROW_SIZE: int := 512
  const COL_SIZE: int := 512
  const MAX_ITERATIONS: int := 100
  const REPETITIONS: int := 100

  /** The share of differing cells the check still accepts. */
  const TOLERANCE: real := 0.05

  datatype MandelParameters = MandelParameters(rowCount: int, colCount: int, maxIterations: int)

  /** How `Verify` ends: normally, or by throwing for one of its two reasons. */
  datatype Verdict = Passed | SizeDiffers | DiffTooLarge

  /** The conversion of a `float` to `int`: truncation toward zero. */
  function Trunc(v: real): (n: int)
    ensures v >= 0.0 ==> 0.0 <= n as real <= v < n as real + 1.0
    ensures v < 0.0 ==> n as real - 1.0 < v <= n as real <= 0.0
  {
    if v >= 0.0 then v.Floor else -((-v).Floor)
  }

  /** An integer-valued `float` converts back to the same integer. */
  lemma TruncInt(n: int)
    ensures Trunc(n as real) == n
  {
  }

  /** `diff` of `total` cells exceed the tolerance: the quotient compares greater than 0.05. With no
      cells the quotient is not a number and compares false. */
  predicate ExceedsTolerance(diff: int, total: int) {
    total > 0 && (diff as real) / (total as real) > TOLERANCE
  }

  /** The tolerance test in integers: more than one cell in twenty differs. */
  lemma ExceedsToleranceExact(diff: int, total: int)
    ensures ExceedsTolerance(diff, total) <==> total > 0 && 20 * diff > total
  {
    if total > 0 {
      QuotientCompare(diff as real, total as real, TOLERANCE);
    }
  }

  /** The number of positions below `n` where `a` and `b` differ. */
  function DiffCount(a: seq<int>, b: seq<int>, n: nat): nat
    requires n <= |a| && n <= |b|
  {
    if n == 0 then 0 else DiffCount(a, b, n - 1) + (if a[n - 1] != b[n - 1] then 1 else 0)
  }

  /** At most `n` positions differ, and none do exactly when the first `n` entries agree. */
  lemma {:induction false} DiffCountSpec(a: seq<int>, b: seq<int>, n: nat)
    requires n <= |a| && n <= |b|
    ensures DiffCount(a, b, n) <= n
    ensures DiffCount(a, b, n) == 0 <==> a[..n] == b[..n]
  {
    if n > 0 {
      DiffCountSpec(a, b, n - 1);
      assert a[..n] == a[..n - 1] + [a[n - 1]];
      assert b[..n] == b[..n - 1] + [b[n - 1]];
      if a[..n] == b[..n] {
        assert a[..n - 1] == a[..n][..n - 1];
        assert b[..n - 1] == b[..n][..n - 1];
        assert a[n - 1] == a[..n][n - 1];
      }
    }
  }

  /** Two images with the same contents pass the check. */
  lemma SameImagePasses(a: seq<int>, total: int)
    requires total == |a|
    ensures !ExceedsTolerance(DiffCount(a, a, total), total)
  {
    DiffCountSpec(a, a, total);
    ExceedsToleranceExact(0, total);
  }

  /** A row-major image of `p.rowCount` x `p.colCount` counts. */
  class Mandel {
    const p: MandelParameters
    const data: array<int>

    ghost predicate Valid()
      reads this
    {
      0 <= p.rowCount && 0 <= p.colCount && data.Length == p.rowCount * p.colCount
    }

    /** Allocates `row_count * col_count` cells. */
    constructor(rowCount: int, colCount: int, maxIterations: int)
      requires 0 <= rowCount && 0 <= colCount
      ensures Valid() && p == MandelParameters(rowCount, colCount, maxIterations) && fresh(data)
    {
      p := MandelParameters(rowCount, colCount, maxIterations);
      data := new int[rowCount * colCount];
    }

    /** The cell of row `i` and column `j`, at row-major index `i * col_count + j`. */
    function GetValue(i: int, j: int): int
      reads this, data
      requires Valid() && 0 <= i < p.rowCount && 0 <= j < p.colCount
    {
      RowBound(j, i, p.colCount, p.rowCount);
      data[i * p.colCount + j]
    }

    /** Writes `n` into cell `(i, j)` of the row-major buffer; every other cell keeps its value. */
    method Put(i: int, j: int, n: int)
      requires Valid() && 0 <= i < p.rowCount && 0 <= j < p.colCount
      modifies data
      ensures 0 <= i * p.colCount + j < data.Length
      ensures data[..] == old(data[..])[i * p.colCount + j := n]
      ensures GetValue(i, j) == n
      ensures forall i', j' :: 0 <= i' < p.rowCount && 0 <= j' < p.colCount && (i' != i || j' != j) ==>
        GetValue(i', j') == old(GetValue(i', j'))
    {
      RowBound(j, i, p.colCount, p.rowCount);
      data[i * p.colCount + j] := n;
      forall i', j' | 0 <= i' < p.rowCount && 0 <= j' < p.colCount && (i' != i || j' != j)
        ensures GetValue(i', j') == old(GetValue(i', j'))
      {
        RowBound(j', i', p.colCount, p.rowCount);
        if i' * p.colCount + j' == i * p.colCount + j {
          RowMajorInjective(i', j', i, j, p.colCount);
        }
      }
    }

    /** Stores `v`, converted to `int`, into cell `(i, j)`; every other cell keeps its value. */
    method SetValue(i: int, j: int, v: real)
      requires Valid() && 0 <= i < p.rowCount && 0 <= j < p.colCount
      modifies data
      ensures 0 <= i * p.colCount + j < data.Length
      ensures data[..] == old(data[..])[i * p.colCount + j := Trunc(v)]
      ensures GetValue(i, j) == Trunc(v)
      ensures forall i', j' :: 0 <= i' < p.rowCount && 0 <= j' < p.colCount && (i' != i || j' != j) ==>
        GetValue(i', j') == old(GetValue(i', j'))
    {
      Put(i, j, Trunc(v));
    }

    /** `MandelSerial::Evaluate`: every cell gets the escape count of the point it scales to,
        stored through `SetValue`. */
    method SerialEvaluate()
      requires Valid()
      modifies data
      ensures forall i, j :: 0 <= i < p.rowCount && 0 <= j < p.colCount ==>
        GetValue(i, j) == PixelCount(i, j, p.rowCount, p.colCount, p.maxIterations)
    {
      var i := 0;
      while i < p.rowCount
        invariant 0 <= i <= p.rowCount
        invariant forall i', j' :: 0 <= i' < i && 0 <= j' < p.colCount ==>
          GetValue(i', j') == PixelCount(i', j', p.rowCount, p.colCount, p.maxIterations)
      {
        var j := 0;
        while j < p.colCount
          invariant 0 <= j <= p.colCount
          invariant forall i', j' :: 0 <= i' < i && 0 <= j' < p.colCount ==>
            GetValue(i', j') == PixelCount(i', j', p.rowCount, p.colCount, p.maxIterations)
          invariant forall j' :: 0 <= j' < j ==>
            GetValue(i, j') == PixelCount(i, j', p.rowCount, p.colCount, p.maxIterations)
        {
          var c := Complex(ScaleRow(i, p.rowCount), ScaleCol(j, p.colCount));
          var count := Point(c, p.maxIterations);
          TruncInt(count);
          SetValue(i, j, count as real);
          j := j + 1;
        }
        i := i + 1;
      }
    }

    /** `MandelParallel::Evaluate`: the kernel over the `rows x cols` range writes the count of
        each cell straight into the buffer, with no conversion; the work-items are taken in
        row-major order. */
    method ParallelEvaluate()
      requires Valid()
      modifies data
      ensures forall i, j :: 0 <= i < p.rowCount && 0 <= j < p.colCount ==>
        GetValue(i, j) == PixelCount(i, j, p.rowCount, p.colCount, p.maxIterations)
    {
      var rows := p.rowCount;
      var cols := p.colCount;
      for i := 0 to rows
        invariant forall i', j' :: 0 <= i' < i && 0 <= j' < cols ==>
          GetValue(i', j') == PixelCount(i', j', rows, cols, p.maxIterations)
      {
        for j := 0 to cols
          invariant forall i', j' :: 0 <= i' < i && 0 <= j' < cols ==>
            GetValue(i', j') == PixelCount(i', j', rows, cols, p.maxIterations)
          invariant forall j' :: 0 <= j' < j ==>
            GetValue(i, j') == PixelCount(i, j', rows, cols, p.maxIterations)
        {
          var c := Complex(ScaleRow(i, rows), ScaleCol(j, cols));
          var count := Point(c, p.maxIterations);
          Put(i, j, count);
        }
      }
    }

    /** Compares this image with `m`: a size mismatch throws, and so does a share of differing
        cells above the tolerance. */
    method Verify(m: Mandel) returns (verdict: Verdict)
      requires Valid() && m.Valid()
      ensures m.p.rowCount != p.rowCount || m.p.colCount != p.colCount ==> verdict == SizeDiffers
      ensures m.p.rowCount == p.rowCount && m.p.colCount == p.colCount ==>
        verdict == if ExceedsTolerance(DiffCount(m.data[..], data[..], data.Length), data.Length)
                   then DiffTooLarge else Passed
    {
      if m.p.rowCount != p.rowCount || m.p.colCount != p.colCount {
        return SizeDiffers;
      }
      var diff := 0;
      var i := 0;
      while i < p.rowCount
        invariant 0 <= i <= p.rowCount
        invariant i * p.colCount <= data.Length
        invariant diff == DiffCount(m.data[..], data[..], i * p.colCount)
      {
        var j := 0;
        while j < p.colCount
          invariant 0 <= j <= p.colCount
          invariant i * p.colCount + j <= data.Length
          invariant diff == DiffCount(m.data[..], data[..], i * p.colCount + j)
        {
          RowBound(j, i, p.colCount, p.rowCount);
          if m.GetValue(i, j) != GetValue(i, j) {
            diff := diff + 1;
          }
          j := j + 1;
        }
        assert i * p.colCount + p.colCount == (i + 1) * p.colCount;
        i := i + 1;
        if p.colCount > 0 {
          MulMono(i, p.rowCount, p.colCount);
        }
      }
      if ExceedsTolerance(diff, p.rowCount * p.colCount) {
        return DiffTooLarge;
      }
      return Passed;
    }
  }

  /** `Execute`: a parallel and a serial image of the same size, the parallel one evaluated once
      and then `repetitions` more times, compared by `Verify`, which always passes. */
  method Execute(rowCount: int, colCount: int, maxIterations: int, repetitions: nat)
    returns (verdict: Verdict)
    requires 0 <= rowCount && 0 <= colCount
    ensures verdict == Passed
  {
    var par := new Mandel(rowCount, colCount, maxIterations);
    var ser := new Mandel(rowCount, colCount, maxIterations);
    par.ParallelEvaluate();
    for r := 0 to repetitions
      invariant forall i, j :: 0 <= i < rowCount && 0 <= j < colCount ==>
        par.GetValue(i, j) == PixelCount(i, j, rowCount, colCount, maxIterations)
    {
      par.ParallelEvaluate();
    }
    ser.SerialEvaluate();
    forall k | 0 <= k < par.data.Length
      ensures ser.data[k] == par.data[k]
    {
      var i, j := k / colCount, k % colCount;
      assert k == i * colCount + j;
      MulMono(i + 1, rowCount, colCount);
      assert par.GetValue(i, j) == ser.GetValue(i, j);
    }
    assert ser.data[..] == par.data[..];
    SameImagePasses(par.data[..], par.data.Length);
    verdict := par.Verify(ser);
  }
}
