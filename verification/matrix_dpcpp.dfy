/** The DPC++ matrix-multiplication sample: three kernels fill `a` and `b` and compute `c`, which
    lands in the host matrix `c_back`, and the host checks it. */
module MatrixMulDpcpp {
  import opened MatrixCommon

  /** One work-item of the `MatrixMult` kernel: the sum over `i < WidthA` of
      `A[row][i] * B[i][col]`. */
  method CellSum(a: array2<int>, b: array2<int>, row: int, col: int) returns (sum: int)
    requires a.Length1 == b.Length0 && 0 <= row < a.Length0 && 0 <= col < b.Length1
    ensures sum == Dot(a, b, row, col, a.Length1)
  {
    var widthA := a.Length1;
    sum := 0;
    for i := 0 to widthA
      invariant sum == Dot(a, b, row, col, i)
    {
      sum := sum + a[row, i] * b[i, col];
    }
  }

  /** The `MatrixMult` kernel over the `M x P` range: every cell of `c` becomes its entry of the
      product `a * b`. */
  method MatrixMult(a: array2<int>, b: array2<int>, c: array2<int>)
    requires a.Length0 == c.Length0 && a.Length1 == b.Length0 && b.Length1 == c.Length1
    requires c != a && c != b
    modifies c
    ensures forall row, col :: 0 <= row < c.Length0 && 0 <= col < c.Length1 ==>
      c[row, col] == Dot(a, b, row, col, a.Length1)
  {
    for row := 0 to c.Length0
      invariant forall r, col :: 0 <= r < row && 0 <= col < c.Length1 ==> c[r, col] == Dot(a, b, r, col, a.Length1)
    {
      for col := 0 to c.Length1
        invariant forall r, col' :: 0 <= r < row && 0 <= col' < c.Length1 ==> c[r, col'] == Dot(a, b, r, col', a.Length1)
        invariant forall col' :: 0 <= col' < col ==> c[row, col'] == Dot(a, b, row, col', a.Length1)
      {
        var sum := CellSum(a, b, row, col);
        c[row, col] := sum;
      }
    }
  }

  /** `main`: zeroes `c_back`, runs the two fill kernels and the product kernel, and returns the
      check's verdict, which is 0. */
  method Program() returns (result: int)
    ensures result == 0
  {
    var cBack := new int[M, P];
    FillZero(cBack);
    var a := new int[M, N];
    var b := new int[N, P];
    FillOnes(a);
    FillRowIndex(b);
    MatrixMult(a, b, cBack);
    forall row, col | 0 <= row < M && 0 <= col < P
      ensures cBack[row, col] == Expected()
    {
      DotOfFills(a, b, row, col, N);
    }
    var reported;
    result, reported := VerifyResult(cBack);
  }
}
