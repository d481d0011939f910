/** The OpenMP matrix-multiplication sample: the product computed on the CPU and again in an
    offloaded region, each checked against the host product. */
module MatrixMulOmp {
  import opened MatrixCommon

  /** The file-scope arrays `a` (M x N), `b` (N x P) and `c` (M x P). */
  class Globals {
    const a: array2<int>
    const b: array2<int>
    const c: array2<int>

    ghost predicate Valid()
      reads this
    {
      a.Length0 == M && a.Length1 == N && b.Length0 == N && b.Length1 == P &&
      c.Length0 == M && c.Length1 == P
    }

    constructor()
      ensures Valid() && fresh(a) && fresh(b) && fresh(c)
    {
      a := new int[M, N];
      b := new int[N, P];
      c := new int[M, P];
    }

    /** `MatrixMulOpenMpGpuOffloading`: the same fills of the globals, then the same loop nest in
        the target region, so `c` again holds `1 + 2 + ... + N` in every cell. */
    method MatrixMulOpenMpGpuOffloading()
      requires Valid()
      modifies a, b, c
      ensures IsOnes(a) && IsRowIndex(b)
      ensures forall i, j :: 0 <= i < M && 0 <= j < P ==> c[i, j] == Expected()
    {
      FillOnes(a);
      FillRowIndex(b);
      FillZero(c);
      MultiplyAccumulate(a, b, c);
      forall i, j | 0 <= i < M && 0 <= j < P
        ensures c[i, j] == Expected()
      {
        DotOfFills(a, b, i, j, N);
      }
    }
  }

  /** `MatrixMulOpenMpCpu`: fills `a` with ones, the rows of `b` with their index plus one, `c`
      with zeros, then accumulates `c[i][j] += a[i][k] * b[k][j]`; every cell ends as the product
      entry, `1 + 2 + ... + N`. */
  method MatrixMulOpenMpCpu(a: array2<int>, b: array2<int>, c: array2<int>)
    requires a.Length0 == M && a.Length1 == N && b.Length0 == N && b.Length1 == P
    requires c.Length0 == M && c.Length1 == P
    modifies a, b, c
    ensures IsOnes(a) && IsRowIndex(b)
    ensures forall i, j :: 0 <= i < M && 0 <= j < P ==> c[i, j] == Dot(a, b, i, j, N) == Expected()
  {
    FillOnes(a);
    FillRowIndex(b);
    FillZero(c);
    MultiplyAccumulate(a, b, c);
    forall i, j | 0 <= i < M && 0 <= j < P
      ensures c[i, j] == Expected()
    {
      DotOfFills(a, b, i, j, N);
    }
  }

  /** `Result1 || Result2`: 1 when either check failed, 0 when both passed. */
  function CombineResults(result1: int, result2: int): (code: int)
    ensures code == 0 || code == 1
    ensures code == 0 <==> result1 == 0 && result2 == 0
  {
    if result1 != 0 || result2 != 0 then 1 else 0
  }

  /** `main`: the CPU product and the offloaded product both pass the check, so the sample exits
      with 0. */
  method Program(g: Globals) returns (exitCode: int)
    requires g.Valid()
    modifies g.a, g.b, g.c
    ensures exitCode == 0
  {
    MatrixMulOpenMpCpu(g.a, g.b, g.c);
    var result1, reported1 := VerifyResult(g.c);
    g.MatrixMulOpenMpGpuOffloading();
    var result2, reported2 := VerifyResult(g.c);
    exitCode := CombineResults(result1, result2);
  }
}
