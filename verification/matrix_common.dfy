/** What the two matrix-multiplication samples share: the sizes, the fills of the factors, the
    row-by-row accumulating product, and the host-side check of a result matrix. The `double`
    entries only ever hold small integers, so they are integers here. */
module MatrixCommon {

  const SIZE: int := 1200
  const M: int := SIZE / 8
  const N: int := SIZE / 4
  const P: int := SIZE / 2

  /** How many mismatching cells the check reports before it stops scanning. */
  const MAX_REPORTS: int := 5

  /** Row `i` of `a` times column `j` of `b`, over the first `n` terms. */
  function Dot(a: array2<int>, b: array2<int>, i: int, j: int, n: int): int
    reads a, b
    requires 0 <= i < a.Length0 && 0 <= j < b.Length1 && 0 <= n <= a.Length1 && n <= b.Length0
  {
    if n == 0 then 0 else Dot(a, b, i, j, n - 1) + a[i, n - 1] * b[n - 1, j]
  }

  /** Every cell of `a` is 1 (the samples call it the identity, but it is all ones). */
  ghost predicate IsOnes(a: array2<int>)
    reads a
  {
    forall i, k :: 0 <= i < a.Length0 && 0 <= k < a.Length1 ==> a[i, k] == 1
  }

  /** Every column of `b` is `1, 2, ..., rows`. */
  ghost predicate IsRowIndex(b: array2<int>)
    reads b
  {
    forall k, j :: 0 <= k < b.Length0 && 0 <= j < b.Length1 ==> b[k, j] == k + 1
  }

  /** Every cell of `c` is 0. */
  ghost predicate IsZero(c: array2<int>)
    reads c
  {
    forall i, j :: 0 <= i < c.Length0 && 0 <= j < c.Length1 ==> c[i, j] == 0
  }

  /** With those fills, every cell of the product is `1 + 2 + ... + n = n(n+1)/2`. */
  lemma {:induction false} DotOfFills(a: array2<int>, b: array2<int>, i: int, j: int, n: int)
    requires 0 <= i < a.Length0 && 0 <= j < b.Length1 && 0 <= n <= a.Length1 && n <= b.Length0
    requires IsOnes(a) && IsRowIndex(b)
    ensures 2 * Dot(a, b, i, j, n) == n * (n + 1)
  {
    if n > 0 {
      DotOfFills(a, b, i, j, n - 1);
    }
  }

  /** Sets every cell of `a` to 1. */
  method FillOnes(a: array2<int>)
    modifies a
    ensures IsOnes(a)
  {
    for i := 0 to a.Length0
      invariant forall i', k :: 0 <= i' < i && 0 <= k < a.Length1 ==> a[i', k] == 1
    {
      for k := 0 to a.Length1
        invariant forall i', k' :: 0 <= i' < i && 0 <= k' < a.Length1 ==> a[i', k'] == 1
        invariant forall k' :: 0 <= k' < k ==> a[i, k'] == 1
      {
        a[i, k] := 1;
      }
    }
  }

  /** Sets every cell of row `k` of `b` to `k + 1`. */
  method FillRowIndex(b: array2<int>)
    modifies b
    ensures IsRowIndex(b)
  {
    for k := 0 to b.Length0
      invariant forall k', j :: 0 <= k' < k && 0 <= j < b.Length1 ==> b[k', j] == k' + 1
    {
      for j := 0 to b.Length1
        invariant forall k', j' :: 0 <= k' < k && 0 <= j' < b.Length1 ==> b[k', j'] == k' + 1
        invariant forall j' :: 0 <= j' < j ==> b[k, j'] == k + 1
      {
        b[k, j] := k + 1;
      }
    }
  }

  /** Sets every cell of `c` to 0. */
  method FillZero(c: array2<int>)
    modifies c
    ensures IsZero(c)
  {
    for i := 0 to c.Length0
      invariant forall i', j :: 0 <= i' < i && 0 <= j < c.Length1 ==> c[i', j] == 0
    {
      for j := 0 to c.Length1
        invariant forall i', j' :: 0 <= i' < i && 0 <= j' < c.Length1 ==> c[i', j'] == 0
        invariant forall j' :: 0 <= j' < j ==> c[i, j'] == 0
      {
        c[i, j] := 0;
      }
    }
  }

  /** The innermost loop `c[i][j] += a[i][k] * b[k][j]` over the columns `j` of row `i`; every other
      row is left alone. */
  method AccumulateRow(a: array2<int>, b: array2<int>, c: array2<int>, i: int, k: int)
    requires a.Length0 == c.Length0 && a.Length1 == b.Length0 && b.Length1 == c.Length1
    requires 0 <= i < a.Length0 && 0 <= k < a.Length1 && c != a && c != b
    modifies c
    ensures forall j :: 0 <= j < c.Length1 ==> c[i, j] == old(c[i, j]) + a[i, k] * b[k, j]
    ensures forall i', j :: 0 <= i' < c.Length0 && i' != i && 0 <= j < c.Length1 ==> c[i', j] == old(c[i', j])
  {
    for j := 0 to b.Length1
      invariant forall j' :: 0 <= j' < j ==> c[i, j'] == old(c[i, j']) + a[i, k] * b[k, j']
      invariant forall j' :: j <= j' < c.Length1 ==> c[i, j'] == old(c[i, j'])
      invariant forall i', j' :: 0 <= i' < c.Length0 && i' != i && 0 <= j' < c.Length1 ==> c[i', j'] == old(c[i', j'])
    {
      c[i, j] := c[i, j] + a[i, k] * b[k, j];
    }
  }

  /** The `i, k, j` loop nest `c[i][j] += a[i][k] * b[k][j]`: adds the product `a * b` onto `c`. */
  method MultiplyAccumulate(a: array2<int>, b: array2<int>, c: array2<int>)
    requires a.Length0 == c.Length0 && a.Length1 == b.Length0 && b.Length1 == c.Length1
    requires c != a && c != b
    modifies c
    ensures forall i, j :: 0 <= i < c.Length0 && 0 <= j < c.Length1 ==>
      c[i, j] == old(c[i, j]) + Dot(a, b, i, j, a.Length1)
  {
    for i := 0 to a.Length0
      invariant forall i', j :: 0 <= i' < i && 0 <= j < c.Length1 ==>
        c[i', j] == old(c[i', j]) + Dot(a, b, i', j, a.Length1)
      invariant forall i', j :: i <= i' < c.Length0 && 0 <= j < c.Length1 ==> c[i', j] == old(c[i', j])
    {
      for k := 0 to a.Length1
        invariant forall i', j :: 0 <= i' < i && 0 <= j < c.Length1 ==>
          c[i', j] == old(c[i', j]) + Dot(a, b, i', j, a.Length1)
        invariant forall i', j :: i < i' < c.Length0 && 0 <= j < c.Length1 ==> c[i', j] == old(c[i', j])
        invariant forall j :: 0 <= j < c.Length1 ==> c[i, j] == old(c[i, j]) + Dot(a, b, i, j, k)
      {
        AccumulateRow(a, b, c, i, k);
      }
    }
  }

  /** The number of columns below `n` in row `i` of `x` that differ from `v`. */
  function RowMismatches(x: array2<int>, v: int, i: int, n: int): nat
    reads x
    requires 0 <= i < x.Length0 && 0 <= n <= x.Length1
  {
    if n == 0 then 0 else RowMismatches(x, v, i, n - 1) + (if x[i, n - 1] != v then 1 else 0)
  }

  /** The number of cells in the first `m` rows of `x` that differ from `v`. */
  function Mismatches(x: array2<int>, v: int, m: int): nat
    reads x
    requires 0 <= m <= x.Length0
  {
    if m == 0 then 0 else Mismatches(x, v, m - 1) + RowMismatches(x, v, m - 1, x.Length1)
  }

  /** Counting further along a row never counts fewer, and no column differs exactly when the count
      is zero. */
  lemma {:induction false} RowMismatchesSpec(x: array2<int>, v: int, i: int, n: int, n': int)
    requires 0 <= i < x.Length0 && 0 <= n <= n' <= x.Length1
    ensures RowMismatches(x, v, i, n) <= RowMismatches(x, v, i, n')
    ensures RowMismatches(x, v, i, n) == 0 <==> forall j :: 0 <= j < n ==> x[i, j] == v
    decreases n'
  {
    if n < n' {
      RowMismatchesSpec(x, v, i, n, n' - 1);
    } else if n > 0 {
      RowMismatchesSpec(x, v, i, n - 1, n - 1);
    }
  }

  /** Counting further down never counts fewer, and no cell differs exactly when the count is
      zero. */
  lemma {:induction false} MismatchesSpec(x: array2<int>, v: int, m: int, m': int)
    requires 0 <= m <= m' <= x.Length0
    ensures Mismatches(x, v, m) <= Mismatches(x, v, m')
    ensures Mismatches(x, v, m) == 0 <==> forall i, j :: 0 <= i < m && 0 <= j < x.Length1 ==> x[i, j] == v
    decreases m'
  {
    if m < m' {
      MismatchesSpec(x, v, m, m' - 1);
    } else if m > 0 {
      MismatchesSpec(x, v, m - 1, m - 1);
      RowMismatchesSpec(x, v, m - 1, x.Length1, x.Length1);
    }
  }

  /** The value every cell of the host product holds: `1 + 2 + ... + N`. */
  function Expected(): int {
    N * (N + 1) / 2
  }

  /** The host's own product of the fills, which every cell of a correct result must equal. */
  method HostReference() returns (cHost: array2<int>)
    ensures fresh(cHost) && cHost.Length0 == M && cHost.Length1 == P
    ensures forall i, j :: 0 <= i < M && 0 <= j < P ==> cHost[i, j] == Expected()
  {
    var aHost := new int[M, N];
    var bHost := new int[N, P];
    cHost := new int[M, P];
    FillOnes(aHost);
    FillRowIndex(bHost);
    FillZero(cHost);
    MultiplyAccumulate(aHost, bHost, cHost);
    forall i, j | 0 <= i < M && 0 <= j < P
      ensures cHost[i, j] == Expected()
    {
      DotOfFills(aHost, bHost, i, j, N);
    }
  }

  /** The cells of row `i` in column order, the inner loop of the scan: each cell differing from
      the host product is reported and sets the mismatch flag, and the scan stops at the fifth
      report. */
  method ScanRow(cBack: array2<int>, cHost: array2<int>, v: int, i: int, mismatchFound0: bool, printfCount0: int)
    returns (mismatchFound: bool, printfCount: int)
    requires cBack.Length0 == cHost.Length0 == M && cBack.Length1 == cHost.Length1 == P && 0 <= i < M
    requires forall j :: 0 <= j < P ==> cHost[i, j] == v
    requires 0 <= printfCount0 < MAX_REPORTS && (mismatchFound0 <==> printfCount0 > 0)
    ensures mismatchFound <==> printfCount > 0
    ensures printfCount == if printfCount0 + RowMismatches(cBack, v, i, P) < MAX_REPORTS
                           then printfCount0 + RowMismatches(cBack, v, i, P) else MAX_REPORTS
  {
    mismatchFound, printfCount := mismatchFound0, printfCount0;
    var j := 0;
    while j < P
      invariant 0 <= j <= P
      invariant printfCount == printfCount0 + RowMismatches(cBack, v, i, j) < MAX_REPORTS
      invariant mismatchFound <==> printfCount > 0
    {
      if cBack[i, j] != cHost[i, j] {
        mismatchFound := true;
        printfCount := printfCount + 1;
        if printfCount >= MAX_REPORTS {
          RowMismatchesSpec(cBack, v, i, j + 1, P);
          return;
        }
      }
      j := j + 1;
    }
  }

  /** `VerifyResult`: compares `cBack` with the host product cell by cell in row-major order,
      reporting each mismatch and stopping at the fifth report. Returns 0 when no cell mismatched
      and -1 otherwise, together with the number of mismatches it reported. */
  method VerifyResult(cBack: array2<int>) returns (result: int, reported: int)
    requires cBack.Length0 == M && cBack.Length1 == P
    ensures result == 0 || result == -1
    ensures result == 0 <==> forall i, j :: 0 <= i < M && 0 <= j < P ==> cBack[i, j] == Expected()
    ensures result == 0 <==> reported == 0
    ensures reported == if Mismatches(cBack, Expected(), M) < MAX_REPORTS
                        then Mismatches(cBack, Expected(), M) else MAX_REPORTS
  {
    var cHost := HostReference();
    var v := Expected();
    var mismatchFound := false;
    var printfCount := 0;
    var i := 0;
    while i < M
      invariant 0 <= i <= M
      invariant printfCount == Mismatches(cBack, v, i) < MAX_REPORTS
      invariant mismatchFound <==> printfCount > 0
      modifies {}
    {
      mismatchFound, printfCount := ScanRow(cBack, cHost, v, i, mismatchFound, printfCount);
      if printfCount >= MAX_REPORTS {
        MismatchesSpec(cBack, v, i + 1, M);
        break;
      }
      i := i + 1;
    }
    MismatchesSpec(cBack, v, M, M);
    reported := printfCount;
    if !mismatchFound {
      result := 0;
    } else {
      result := -1;
    }
  }
}
