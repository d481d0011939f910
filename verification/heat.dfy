/** The 1-D heat transfer sample: a rod of `num_p` points plus one boundary cell at each end,
    advanced by the explicit scheme `U(i) = C*(U(i+1) - 2U(i) + U(i-1)) + U(i)` on the device
    (parity-selected buffer roles) and on the host (swap every step), then compared. */
module HeatTransfer {
  import opened Numeric

  /** `dt`, `dx`, `k` and the start temperature `temp` of the sample. */
  const DT: real := 0.002
  const DX: real := 0.01
  const K: real := 0.025
  const TEMP: real := 100.0
  /** The fixed temperature every step puts at the left end. */
  const LEFT_END: real := 100.0
  /** The tolerance of `CompareResults`. */
  const DELTA: real := 0.001

  /** The rod as a step reads it: the left end already set to LEFT_END. */
  function Pin(cur: seq<real>): (r: seq<real>)
    requires |cur| >= 1
    ensures |r| == |cur| && r[0] == LEFT_END && forall j :: 1 <= j < |cur| ==> r[j] == cur[j]
  {
    cur[0 := LEFT_END]
  }

  /** What one step writes into the other buffer, reading `cur` (left end already pinned):
      index `k` is `HeatAt(cur, C, k)` (lemma `HeatStepAt`). */
  function HeatStep(cur: seq<real>, C: real): (next: seq<real>)
    requires |cur| >= 2
    ensures |next| == |cur|
  {
    StepPrefix(cur, C, |cur|)
  }

  /** The first `n` cells of a step. */
  function StepPrefix(cur: seq<real>, C: real, n: nat): (s: seq<real>)
    requires n <= |cur|
    ensures |s| == n
  {
    if n == 0 then [] else StepPrefix(cur, C, n - 1) + [HeatAt(cur, C, n - 1)]
  }

  /** Cell `k` of a prefix of a step is the update at `k`. */
  lemma {:induction false} StepPrefixAt(cur: seq<real>, C: real, n: nat, k: nat)
    requires k < n <= |cur|
    ensures StepPrefix(cur, C, n)[k] == HeatAt(cur, C, k)
  {
    if k < n - 1 {
      StepPrefixAt(cur, C, n - 1, k);
    }
  }

  /** Cell `k` of a step is the update at `k`. */
  lemma HeatStepAt(cur: seq<real>, C: real, k: nat)
    requires |cur| >= 2 && k < |cur|
    ensures HeatStep(cur, C)[k] == HeatAt(cur, C, k)
  {
    StepPrefixAt(cur, C, |cur|, k);
  }

  /** A buffer whose every cell is the update at that cell is the step. */
  lemma IsHeatStep(cur: seq<real>, C: real, next: seq<real>)
    requires |cur| >= 2 && |next| == |cur|
    requires forall k :: 0 <= k < |cur| ==> next[k] == HeatAt(cur, C, k)
    ensures next == HeatStep(cur, C)
  {
    forall k | 0 <= k < |cur|
      ensures next[k] == HeatStep(cur, C)[k]
    {
      HeatStepAt(cur, C, k);
    }
  }

  /** Index `k` of a step: LEFT_END at index 0, a copy of the last rod point `cur[num_p]` at the
      right end `num_p + 1`, and in between `C` times the discrete second difference added to the
      point's own temperature. */
  function HeatAt(cur: seq<real>, C: real, k: nat): real
    requires k < |cur|
  {
    if k == 0 then LEFT_END
    else if k == |cur| - 1 then cur[k - 1]
    else C * (cur[k + 1] - 2.0 * cur[k] + cur[k - 1]) + cur[k]
  }

  /** The two buffers of a run: `latest` holds the newest temperatures, `older` the other buffer. */
  datatype Rod = Rod(latest: seq<real>, older: seq<real>)

  predicate RodOf(r: Rod, n: nat) {
    |r.latest| == n && |r.older| == n
  }

  /** `latestBuf` holds the newest temperatures of `r` and `olderBuf` its other buffer. */
  predicate Holds(latestBuf: seq<real>, olderBuf: seq<real>, r: Rod) {
    latestBuf == r.latest && olderBuf == r.older
  }

  /** A rod of `n` cells at zero except for `t` at the left end: the state both drivers start from. */
  function ColdRod(n: nat, t: real): (s: seq<real>)
    requires n >= 1
    ensures |s| == n
  {
    seq(n, _ => 0.0)[0 := t]
  }

  /** The buffers after `k` steps: each step pins the left end of the newest buffer and
      writes its successor into the other one, which then becomes the newest. */
  function HeatRun(start: Rod, C: real, k: nat): (r: Rod)
    requires |start.latest| >= 2 && RodOf(start, |start.latest|)
    ensures RodOf(r, |start.latest|)
  {
    if k == 0 then start else Advance(HeatRun(start, C, k - 1), C)
  }

  /** One step of a run: the newest buffer gets its left end pinned and the other buffer
      receives its successor. */
  function Advance(r: Rod, C: real): (s: Rod)
    requires |r.latest| >= 2 && RodOf(r, |r.latest|)
    ensures RodOf(s, |r.latest|)
  {
    Rod(HeatStep(Pin(r.latest), C), Pin(r.latest))
  }

  /** A step keeps the ends as the boundary conditions say: LEFT_END on the left, and on the
      right the value of the last rod point. */
  lemma StepBoundaries(cur: seq<real>, C: real)
    requires |cur| >= 2
    ensures HeatStep(Pin(cur), C)[0] == LEFT_END
    ensures HeatStep(Pin(cur), C)[|cur| - 1] == (if |cur| == 2 then LEFT_END else cur[|cur| - 2])
  {
    HeatStepAt(Pin(cur), C, 0);
    HeatStepAt(Pin(cur), C, |cur| - 1);
  }

  /** A rod at LEFT_END everywhere is in equilibrium: every step leaves it unchanged. */
  lemma {:induction false} EquilibriumStays(n: nat, C: real, k: nat)
    requires n >= 2
    ensures HeatRun(Rod(seq(n, _ => LEFT_END), seq(n, _ => LEFT_END)), C, k) ==
      Rod(seq(n, _ => LEFT_END), seq(n, _ => LEFT_END))
  {
    var hot := seq(n, _ => LEFT_END);
    if k > 0 {
      EquilibriumStays(n, C, k - 1);
      assert Pin(hot) == hot;
      IsHeatStep(hot, C, hot);
    }
  }

  /** `Initialize`: zero the indices `idx .. num-1` of `a` and nothing else. */
  method Initialize(a: array<real>, num: nat, idx: nat)
    requires num <= a.Length
    modifies a
    ensures forall j :: idx <= j < num ==> a[j] == 0.0
    ensures forall j :: 0 <= j < a.Length && !(idx <= j < num) ==> a[j] == old(a[j])
  {
    var i := idx;
    while i < num
      invariant idx <= i && (i <= num || i == idx)
      invariant forall j :: idx <= j < i ==> a[j] == 0.0
      invariant forall j :: 0 <= j < a.Length && !(idx <= j < i) ==> a[j] == old(a[j])
      decreases num - i
    {
      a[i] := 0.0;
      i := i + 1;
    }
  }

  /** The `parallel_for` of one device step, with the work-items taken in `gid` order: item 0
      sets index 0 of both buffers to LEFT_END, the last item copies `cur[num_p]`, the others
      apply the three-point update. */
  method DeviceKernel(cur: array<real>, next: array<real>, C: real, numP: nat)
    requires cur != next && cur.Length == numP + 2 && next.Length == numP + 2
    modifies cur, next
    ensures cur[..] == Pin(old(cur[..]))
    ensures next[..] == HeatStep(Pin(old(cur[..])), C)
  {
    ghost var pinned := Pin(cur[..]);
    for gid := 0 to numP + 2
      invariant gid == 0 ==> cur[..] == old(cur[..])
      invariant gid > 0 ==> cur[..] == pinned
      invariant forall j :: 0 <= j < gid ==> next[j] == HeatAt(pinned, C, j)
    {
      if gid == 0 {
        cur[gid] := LEFT_END;
        next[gid] := cur[gid];
      } else if gid == numP + 1 {
        next[gid] := cur[gid - 1];
      } else {
        next[gid] := C * (cur[gid + 1] - 2.0 * cur[gid] + cur[gid - 1]) + cur[gid];
      }
    }
    IsHeatStep(pinned, C, next[..]);
  }

  /** The caller's two buffers `arr` and `arr_next` of the device driver. */
  datatype Buffers = Buffers(arr: seq<real>, arrNext: seq<real>)

  predicate BuffersOf(b: Buffers, n: nat) {
    |b.arr| == n && |b.arrNext| == n
  }

  /** The buffers after the first `k` iterations of the device driver's time loop: iteration `i`
      reads and pins `arr` and writes `arr_next` when `i` is odd, and the reverse when it is even. */
  function DeviceRun(b: Buffers, C: real, k: nat): (r: Buffers)
    requires |b.arr| >= 2 && BuffersOf(b, |b.arr|)
    ensures BuffersOf(r, |b.arr|)
  {
    if k == 0 then b else DeviceIterate(DeviceRun(b, C, k - 1), C, k)
  }

  /** Iteration `i` of the device driver's time loop. */
  function DeviceIterate(p: Buffers, C: real, i: nat): (r: Buffers)
    requires |p.arr| >= 2 && BuffersOf(p, |p.arr|)
    ensures BuffersOf(r, |p.arr|)
  {
    if Odd(i) then Buffers(Pin(p.arr), HeatStep(Pin(p.arr), C))
    else Buffers(HeatStep(Pin(p.arrNext), C), Pin(p.arrNext))
  }

  /** Selecting the buffer roles by the parity of the step is the same run as swapping them after
      every step: after an odd number of steps `arr_next` holds the newest rod, after an even
      number `arr` does. */
  lemma {:induction false} DeviceRunIsHeatRun(b: Buffers, C: real, k: nat)
    requires |b.arr| >= 2 && BuffersOf(b, |b.arr|)
    ensures var r := HeatRun(Rod(b.arr, b.arrNext), C, k);
      DeviceRun(b, C, k) == (if Odd(k) then Buffers(r.older, r.latest) else Buffers(r.latest, r.older))
  {
    if k > 0 {
      DeviceRunIsHeatRun(b, C, k - 1);
    }
  }

  /** The buffer scope of iteration `i` of the device driver: the kernel reads `arr` and writes
      `arr_next` when `i` is odd, and the reverse when it is even. */
  method DeviceIteration(arr: array<real>, arrNext: array<real>, C: real, numP: nat, i: nat)
    requires arr != arrNext && arr.Length == numP + 2 && arrNext.Length == numP + 2
    modifies arr, arrNext
    ensures Buffers(arr[..], arrNext[..]) == DeviceIterate(Buffers(old(arr[..]), old(arrNext[..])), C, i)
  {
    OddMod(i);
    var current, next;
    if i % 2 != 0 {
      current, next := arr, arrNext;
    } else {
      current, next := arrNext, arr;
    }
    DeviceKernel(current, next, C, numP);
  }

  /** `ComputeHeatDeviceParallel`: set `t` at index 0 of both buffers, run the time loop, and
      return the buffer written last (a final swap when `num_iter + 1` is even selects `arr_next`). */
  method ComputeHeatDeviceParallel(arr: array<real>, arrNext: array<real>, C: real, numP: nat, numIter: nat, t: real)
    returns (result: array<real>)
    requires arr != arrNext && arr.Length == numP + 2 && arrNext.Length == numP + 2
    modifies arr, arrNext
    ensures result == (if numIter % 2 == 1 then arrNext else arr)
    ensures Buffers(arr[..], arrNext[..]) == DeviceRun(Buffers(old(arr[..])[0 := t], old(arrNext[..])[0 := t]), C, numIter)
  {
    arrNext[0] := t;
    arr[0] := t;
    ghost var start := Buffers(arr[..], arrNext[..]);
    var first, second := arr, arrNext;
    var i := 1;
    while i <= numIter
      invariant 1 <= i <= numIter + 1
      invariant Buffers(arr[..], arrNext[..]) == DeviceRun(start, C, i - 1)
      decreases numIter + 1 - i
    {
      DeviceIteration(arr, arrNext, C, numP, i);
      i := i + 1;
    }
    OddMod(i);
    if i % 2 == 0 {
      var swap := first;
      first := second;
      second := swap;
    }
    result := first;
  }

  /** The body of one time step of `ComputeHeatHostSerial`: pin the left end of `cur`, copy it to
      `next[0]`, update the rod points `1 .. num_p` and copy `cur[num_p]` to the right end. */
  method HostStep(cur: array<real>, next: array<real>, C: real, numP: nat)
    requires cur != next && cur.Length == numP + 2 && next.Length == numP + 2
    modifies cur, next
    ensures cur[..] == Pin(old(cur[..]))
    ensures next[..] == HeatStep(Pin(old(cur[..])), C)
  {
    ghost var pinned := Pin(cur[..]);
    cur[0] := LEFT_END;
    next[0] := cur[0];
    for k := 1 to numP + 1
      invariant cur[..] == pinned
      invariant next[0] == LEFT_END
      invariant forall j :: 1 <= j < k ==> next[j] == HeatAt(pinned, C, j)
    {
      next[k] := C * (cur[k + 1] - 2.0 * cur[k] + cur[k - 1]) + cur[k];
    }
    next[numP + 1] := cur[numP];
    IsHeatStep(pinned, C, next[..]);
  }

  /** `ComputeHeatHostSerial`: start from a zero rod with `t` at index 0 in both buffers; each step
      pins the left end, writes the next buffer and swaps the two pointers. Returns the newest buffer. */
  method ComputeHeatHostSerial(arr: array<real>, arrNext: array<real>, C: real, numP: nat, numIter: nat, t: real)
    returns (result: array<real>)
    requires arr != arrNext && arr.Length == numP + 2 && arrNext.Length == numP + 2
    modifies arr, arrNext
    ensures result == (if numIter % 2 == 1 then arrNext else arr)
    ensures Holds(result[..], (if numIter % 2 == 1 then arr else arrNext)[..],
                  HeatRun(Rod(ColdRod(numP + 2, t), ColdRod(numP + 2, t)), C, numIter))
  {
    Initialize(arr, numP + 2, 0);
    Initialize(arrNext, numP + 2, 0);
    arrNext[0] := t;
    arr[0] := t;
    ghost var start := Rod(arr[..], arrNext[..]);
    assert start.latest == ColdRod(numP + 2, t) == start.older;
    var cur, next := arr, arrNext;
    ghost var r := start;
    var i := 1;
    while i <= numIter
      invariant 1 <= i <= numIter + 1
      invariant if Odd(i - 1) then cur == arrNext && next == arr else cur == arr && next == arrNext
      invariant r == HeatRun(start, C, i - 1)
      invariant Holds(cur[..], next[..], r)
      decreases numIter + 1 - i
    {
      HostStep(cur, next, C, numP);
      r := Advance(r, C);
      var swap := cur;
      cur := next;
      next := swap;
      i := i + 1;
    }
    OddMod(numIter);
    result := cur;
  }

  /** Some index of `0 .. num_point+1` differs by more than DELTA. */
  predicate Differ(device: seq<real>, host: seq<real>, numPoint: nat)
    requires numPoint + 2 <= |device| && numPoint + 2 <= |host|
  {
    exists i :: 0 <= i < numPoint + 2 && Abs(host[i] - device[i]) > DELTA
  }

  /** `CompareResults`: walk `0 .. num_point+1` and flag every index whose difference exceeds DELTA. */
  method CompareResults(deviceResults: array<real>, hostResults: array<real>, numPoint: nat, C: real) returns (err: bool)
    requires numPoint + 2 <= deviceResults.Length && numPoint + 2 <= hostResults.Length
    ensures err <==> Differ(deviceResults[..], hostResults[..], numPoint)
  {
    err := false;
    for i := 0 to numPoint + 2
      invariant err <==> exists j :: 0 <= j < i && Abs(hostResults[j] - deviceResults[j]) > DELTA
    {
      var difference := Abs(hostResults[i] - deviceResults[i]);
      if difference > DELTA {
        err := true;
      }
    }
  }

  /** `main` after argument parsing: both paths start from zeroed buffers at temperature TEMP, so
      they compute the same rod and the comparison passes; `main` returns 0 either way. */
  method HeatProgram(nPoint: nat, nIteration: nat) returns (exitCode: int, err: bool)
    ensures exitCode == 0 && !err
  {
    var heat := new real[nPoint + 2];
    var heatNext := new real[nPoint + 2];
    var heatCPU := new real[nPoint + 2];
    var heatCPUNext := new real[nPoint + 2];
    var C := (K * DT) / (DX * DX);
    Initialize(heat, nPoint + 2, 0);
    Initialize(heatNext, nPoint + 2, 0);
    ghost var cold := ColdRod(nPoint + 2, TEMP);
    assert heat[..][0 := TEMP] == cold == heatNext[..][0 := TEMP];
    var finalDevice := ComputeHeatDeviceParallel(heat, heatNext, C, nPoint, nIteration, TEMP);
    ghost var r := HeatRun(Rod(cold, cold), C, nIteration);
    DeviceRunIsHeatRun(Buffers(cold, cold), C, nIteration);
    OddMod(nIteration);
    ghost var deviceField := finalDevice[..];
    assert deviceField == r.latest;
    var finalCPU := ComputeHeatHostSerial(heatCPU, heatCPUNext, C, nPoint, nIteration, 100.0);
    assert finalCPU[..] == r.latest;
    assert finalDevice[..] == deviceField;
    err := CompareResults(finalDevice, finalCPU, nPoint, C);
    exitCode := 0;
  }
}
