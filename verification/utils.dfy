/** Host-side helpers of ISO3DFD: the initial fields with their point source, the
    halo-masked comparison of two fields, and the command-line argument check. */
module Iso3dfdUtils {
  import opened Grid3
  import opened Iso3dfdHeader
  import opened Numeric

  /** `2250000 * DT * DT`: the velocity term every cell of `vel` starts with. */
  const VEL_INIT: real := 2250000.0 * DT * DT

  function Pow10(e: nat): (r: real)
    ensures r >= 1.0
  {
    if e == 0 then 1.0 else 10.0 * Pow10(e - 1)
  }

  /** The source writes reach at most 5 cells either side of `(n1/4, n2/4, n3/2)`;
      on these sizes they all land inside the grid. */
  predicate SourceFits(g: Grid) {
    g.n1 >= 20 && g.n2 >= 20 && g.n3 >= 10
  }

  /** The cube of source pass `s`: `[n3/2-s, n3/2+s) x [n2/4-s, n2/4+s) x [n1/4-s, n1/4+s)`. */
  predicate InCube(g: Grid, x: int, y: int, z: int, s: int) {
    g.n3 / 2 - s <= z < g.n3 / 2 + s && g.n2 / 4 - s <= y < g.n2 / 4 + s && g.n1 / 4 - s <= x < g.n1 / 4 + s
  }

  /** What `prev` holds at (x, y, z) once the source passes 5, 4, ..., s have run
      (`s = 6`: none yet). Pass `s` writes `10^(5-s)` over its cube, so a later pass wins. */
  function Injected(g: Grid, x: int, y: int, z: int, s: int): real
    requires 0 <= s <= 6
    decreases 6 - s
  {
    if s == 6 then 0.0
    else if InCube(g, x, y, z, s) then Pow10(5 - s)
    else Injected(g, x, y, z, s + 1)
  }

  /** The field `initialize` leaves in `prev`. */
  function InitialPrev(g: Grid): (r: seq<real>)
    ensures |r| == g.Size()
  {
    seq(g.Size(), c requires 0 <= c < g.Size() =>
      if g.Plane() > 0 then Injected(g, g.X(c), g.Y(c), g.Z(c), 0) else 0.0)
  }

  /** A field holding `v` at every cell. */
  function Uniform(g: Grid, v: real): (r: seq<real>)
    ensures |r| == g.Size() && forall c :: 0 <= c < |r| ==> r[c] == v
  {
    seq(g.Size(), _ => v)
  }

  /** The s = 0 pass writes nothing: its cube is empty. */
  lemma LastPassEmpty(g: Grid, x: int, y: int, z: int)
    ensures !InCube(g, x, y, z, 0)
    ensures Injected(g, x, y, z, 0) == Injected(g, x, y, z, 1)
  {
  }

  /** The cubes are nested: a cell of pass `s`'s cube is in every larger pass's cube too. */
  lemma CubesNested(g: Grid, x: int, y: int, z: int, s: int, t: int)
    requires s <= t && InCube(g, x, y, z, s)
    ensures InCube(g, x, y, z, t)
  {
  }

  /** Outside the s = 5 cube the source leaves `prev` at 0. */
  lemma {:induction false} OutsideSourceIsZero(g: Grid, x: int, y: int, z: int, s: int)
    requires 0 <= s <= 6 && !InCube(g, x, y, z, 5)
    ensures Injected(g, x, y, z, s) == 0.0
    decreases 6 - s
  {
    if s < 6 {
      if InCube(g, x, y, z, s) {
        CubesNested(g, x, y, z, s, 5);
      }
      OutsideSourceIsZero(g, x, y, z, s + 1);
    }
  }

  /** The innermost 2x2x2 cube ends at `10^4`; in general a cell of shell `s`
      (inside cube `s`, outside cube `s - 1`) ends at `10^(5-s)`. */
  lemma {:induction false} ShellValue(g: Grid, x: int, y: int, z: int, s: int, t: int)
    requires 1 <= s <= 5 && InCube(g, x, y, z, s) && !InCube(g, x, y, z, s - 1)
    requires 0 <= t <= s
    ensures Injected(g, x, y, z, t) == Pow10(5 - s)
    decreases s - t
  {
    if t < s {
      if InCube(g, x, y, z, t) {
        CubesNested(g, x, y, z, t, s - 1);
      }
      ShellValue(g, x, y, z, s, t + 1);
    }
  }

  lemma PeakValue(g: Grid)
    ensures Injected(g, g.n1 / 4, g.n2 / 4, g.n3 / 2, 0) == 10000.0
  {
    ShellValue(g, g.n1 / 4, g.n2 / 4, g.n3 / 2, 1, 0);
  }

  /** Every write of the source passes lands inside the grid. */
  lemma CubesInGrid(g: Grid, x: int, y: int, z: int, s: int)
    requires SourceFits(g) && 0 <= s <= 5 && InCube(g, x, y, z, s)
    ensures g.InGrid(x, y, z)
  {
  }

  /** `initialize`: zero `prev` and `next` and fill `vel` over the whole padded grid in
      row-major order, then overwrite the shrinking source cubes of `prev` for s = 5 down to 0. */
  method Initialize(prev: array<real>, next: array<real>, vel: array<real>, g: Grid)
    requires prev != next && prev != vel && next != vel
    requires prev.Length == g.Size() && next.Length == g.Size() && vel.Length == g.Size()
    requires SourceFits(g)
    modifies prev, next, vel
    ensures prev[..] == InitialPrev(g)
    ensures next[..] == Uniform(g, 0.0) && vel[..] == Uniform(g, VEL_INIT)
  {
    FillFields(prev, next, vel, g);
    // Then the source: one pass per s, each writing `val` over its cube.
    var val := 1.0;
    var s := 5;
    while s >= 0
      invariant -1 <= s <= 5 && val == Pow10(5 - s)
      invariant next[..] == Uniform(g, 0.0) && vel[..] == Uniform(g, VEL_INIT)
      invariant forall c :: 0 <= c < g.Size() ==> prev[c] == Injected(g, g.X(c), g.Y(c), g.Z(c), s + 1)
    {
      InjectCube(prev, g, s, val);
      val := val * 10.0;
      s := s - 1;
    }
  }

  /** The fill loops of `initialize`: `prev` and `next` zero and `vel` at VEL_INIT, row by row. */
  method FillFields(prev: array<real>, next: array<real>, vel: array<real>, g: Grid)
    requires prev != next && prev != vel && next != vel
    requires prev.Length == g.Size() && next.Length == g.Size() && vel.Length == g.Size()
    requires SourceFits(g)
    modifies prev, next, vel
    ensures prev[..] == Uniform(g, 0.0) && next[..] == Uniform(g, 0.0) && vel[..] == Uniform(g, VEL_INIT)
  {
    var n1, n2, n3 := g.n1, g.n2, g.n3;
    var dim2 := g.Plane();  // n2 * n1
    assert dim2 > 0;
    for i := 0 to n3
      invariant i * dim2 <= g.Size()
      invariant FilledBefore(prev[..], next[..], vel[..], i * dim2)
    {
      MulMono(i + 1, n3, dim2);
      for j := 0 to n2
        invariant i * dim2 + j * n1 <= (i + 1) * dim2
        invariant FilledBefore(prev[..], next[..], vel[..], i * dim2 + j * n1)
      {
        var offset := i * dim2 + j * n1;
        MulMono(j + 1, n2, n1);
        for k := 0 to n1
          invariant FilledBefore(prev[..], next[..], vel[..], offset + k)
        {
          g.IdxInRange(k, j, i);
          prev[offset + k] := 0.0;
          next[offset + k] := 0.0;
          vel[offset + k] := VEL_INIT;
        }
        assert offset + n1 == i * dim2 + (j + 1) * n1;
      }
      assert i * dim2 + n2 * n1 == (i + 1) * dim2;
    }
  }

  /** The first `m` cells of the three fields hold their fill values. */
  predicate FilledBefore(prev: seq<real>, next: seq<real>, vel: seq<real>, m: int)
    requires m <= |prev| && m <= |next| && m <= |vel|
  {
    forall c :: 0 <= c < m ==> prev[c] == 0.0 && next[c] == 0.0 && vel[c] == VEL_INIT
  }

  /** One source pass of `initialize`: `val` over the cube of pass `s`, z outermost, x innermost. */
  method InjectCube(prev: array<real>, g: Grid, s: int, val: real)
    requires prev.Length == g.Size() && SourceFits(g) && 0 <= s <= 5
    modifies prev
    ensures g.Plane() > 0
    ensures forall c :: 0 <= c < g.Size() ==>
      prev[c] == (if InCube(g, g.X(c), g.Y(c), g.Z(c), s) then val else old(prev[c]))
  {
    ghost var prev0 := prev[..];
    var n1, n2, n3 := g.n1, g.n2, g.n3;
    var dim2 := g.Plane();  // n2 * n1
    assert dim2 > 0;
    for i := n3 / 2 - s to n3 / 2 + s
      invariant forall c :: 0 <= c < g.Size() ==>
        prev[c] == (if InCube(g, g.X(c), g.Y(c), g.Z(c), s) && g.Z(c) < i then val else prev0[c])
    {
      for j := n2 / 4 - s to n2 / 4 + s
        invariant forall c :: 0 <= c < g.Size() ==>
          prev[c] == (if InCube(g, g.X(c), g.Y(c), g.Z(c), s) && (g.Z(c) < i || (g.Z(c) == i && g.Y(c) < j))
                      then val else prev0[c])
      {
        var offset := i * dim2 + j * n1;
        for k := n1 / 4 - s to n1 / 4 + s
          invariant forall c :: 0 <= c < g.Size() ==>
            prev[c] == (if InCube(g, g.X(c), g.Y(c), g.Z(c), s) &&
                          (g.Z(c) < i || (g.Z(c) == i && (g.Y(c) < j || (g.Y(c) == j && g.X(c) < k))))
                        then val else prev0[c])
        {
          g.IdxInRange(k, j, i);
          g.DecodeIdx(k, j, i);
          g.OnlyCell(k, j, i);
          prev[offset + k] := val;
        }
      }
    }
  }

  /** The cells `within_epsilon` compares: x and y in `[radius, dim - radius)`, z in `[radius, dimz - radius + zadjust)`. */
  predicate Compared(g: Grid, radius: int, zadjust: int, x: int, y: int, z: int) {
    x >= radius && x < g.n1 - radius && y >= radius && y < g.n2 - radius &&
    z >= radius && z < g.n3 - radius + zadjust
  }

  /** Cell `c` is compared and the two fields differ there by more than `delta`. */
  predicate Differs(g: Grid, output: seq<real>, reference: seq<real>, radius: int, zadjust: int, delta: real, c: int)
    requires |output| == g.Size() && |reference| == g.Size() && 0 <= c < g.Size()
  {
    g.Plane() > 0 && Compared(g, radius, zadjust, g.X(c), g.Y(c), g.Z(c)) && Abs(reference[c] - output[c]) > delta
  }

  /** Some cell among the first `p` of the row-major order differs. */
  predicate MismatchBefore(g: Grid, output: seq<real>, reference: seq<real>, radius: int, zadjust: int, delta: real, p: int)
    requires |output| == g.Size() && |reference| == g.Size() && p <= g.Size()
  {
    exists c :: 0 <= c < p && Differs(g, output, reference, radius, zadjust, delta, c)
  }

  predicate Mismatch(g: Grid, output: seq<real>, reference: seq<real>, radius: int, zadjust: int, delta: real)
    requires |output| == g.Size() && |reference| == g.Size()
  {
    MismatchBefore(g, output, reference, radius, zadjust, delta, g.Size())
  }

  /** Scanning one more cell adds exactly that cell's verdict. */
  lemma MismatchBeforeNext(g: Grid, output: seq<real>, reference: seq<real>, radius: int, zadjust: int, delta: real, p: int)
    requires |output| == g.Size() && |reference| == g.Size() && 0 <= p < g.Size()
    ensures MismatchBefore(g, output, reference, radius, zadjust, delta, p + 1) <==>
      MismatchBefore(g, output, reference, radius, zadjust, delta, p) || Differs(g, output, reference, radius, zadjust, delta, p)
  {
  }

  /** `within_epsilon`: walk both fields in row-major lock-step and flag an error at every
      compared cell whose difference exceeds `delta`. */
  method WithinEpsilon(output: array<real>, reference: array<real>, dimx: nat, dimy: nat, dimz: nat,
                       radius: nat, zadjust: int, delta: real) returns (error: bool)
    requires output.Length == Grid(dimx, dimy, dimz).Size() && reference.Length == Grid(dimx, dimy, dimz).Size()
    ensures error <==> Mismatch(Grid(dimx, dimy, dimz), output[..], reference[..], radius, zadjust, delta)
  {
    var g := Grid(dimx, dimy, dimz);
    error := false;
    var p := 0;  // how far the `output` and `reference` pointers have advanced
    for iz := 0 to dimz
      invariant p == iz * g.Plane()
      invariant p <= g.Size() && (error <==> MismatchBefore(g, output[..], reference[..], radius, zadjust, delta, p))
    {
      for iy := 0 to dimy
        invariant p == iz * g.Plane() + iy * dimx
        invariant p <= g.Size() && (error <==> MismatchBefore(g, output[..], reference[..], radius, zadjust, delta, p))
      {
        for ix := 0 to dimx
          invariant p == g.Idx(ix, iy, iz)
          invariant p <= g.Size() && (error <==> MismatchBefore(g, output[..], reference[..], radius, zadjust, delta, p))
        {
          g.IdxInRange(ix, iy, iz);
          g.DecodeIdx(ix, iy, iz);
          MismatchBeforeNext(g, output[..], reference[..], radius, zadjust, delta, p);
          if Compared(g, radius, zadjust, ix, iy, iz) {
            var difference := Abs(reference[p] - output[p]);
            if difference > delta {
              error := true;
            }
          }
          p := p + 1;
        }
        assert p == iz * g.Plane() + (iy + 1) * dimx;
      }
      assert p == (iz + 1) * g.Plane();
    }
    assert p == g.Size();
  }

  /** Differences in cells that are not compared, such as the halo, never cause an error. */
  lemma HaloIgnored(g: Grid, out1: seq<real>, out2: seq<real>, reference: seq<real>, radius: int, zadjust: int, delta: real)
    requires |out1| == g.Size() && |out2| == g.Size() && |reference| == g.Size()
    requires forall c :: 0 <= c < g.Size() && g.Plane() > 0 && Compared(g, radius, zadjust, g.X(c), g.Y(c), g.Z(c)) ==> out1[c] == out2[c]
    ensures Mismatch(g, out1, reference, radius, zadjust, delta) <==> Mismatch(g, out2, reference, radius, zadjust, delta)
  {
    if Mismatch(g, out1, reference, radius, zadjust, delta) {
      var c :| 0 <= c < g.Size() && Differs(g, out1, reference, radius, zadjust, delta, c);
      assert Differs(g, out2, reference, radius, zadjust, delta, c);
    }
    if Mismatch(g, out2, reference, radius, zadjust, delta) {
      var c :| 0 <= c < g.Size() && Differs(g, out2, reference, radius, zadjust, delta, c);
      assert Differs(g, out1, reference, radius, zadjust, delta, c);
    }
  }

  /** A field compared with itself never fails for a non-negative tolerance. */
  lemma NoSelfMismatch(g: Grid, f: seq<real>, radius: int, zadjust: int, delta: real)
    requires |f| == g.Size() && delta >= 0.0
    ensures !Mismatch(g, f, f, radius, zadjust, delta)
  {
  }

  /** `validateInput`: true (an error) when an interior size is below 8, a block size is 0
      or there are no iterations; each check sets the flag independently. */
  function ValidateInput(n1: nat, n2: nat, n3: nat, n1Tblock: nat, n2Tblock: nat, n3Tblock: nat, nIterations: nat): (error: bool)
    ensures !error ==> ValidGrid(PaddedGrid(n1, n2, n3)) && SourceFits(PaddedGrid(n1, n2, n3))
    ensures !error ==> n1Tblock > 0 && n2Tblock > 0 && n3Tblock > 0 && nIterations > 0
  {
    var badGrid := n1 < 8 || n2 < 8 || n3 < 8;
    var badBlock := n1Tblock <= 0 || n2Tblock <= 0 || n3Tblock <= 0;
    var badIterations := nIterations <= 0;
    badGrid || badBlock || badIterations
  }

  /** The message asks for sizes "greater than 8", but a size of exactly 8 is accepted;
      any size below 8, a zero block or zero iterations is rejected. */
  lemma ValidateInputBoundary(n: nat)
    ensures !ValidateInput(8, 8, 8, 1, 1, 1, 1)
    ensures n < 8 ==> ValidateInput(n, 8, 8, 1, 1, 1, 1) && ValidateInput(8, n, 8, 1, 1, 1, 1) && ValidateInput(8, 8, n, 1, 1, 1, 1)
    ensures ValidateInput(8, 8, 8, 0, 1, 1, 1) && ValidateInput(8, 8, 8, 1, 0, 1, 1) && ValidateInput(8, 8, 8, 1, 1, 0, 1)
    ensures ValidateInput(8, 8, 8, 1, 1, 1, 0)
  {
  }

  /** The conversion of an `int` to the 64-bit `size_t`: the value modulo 2^64. */
  function SizeT(v: int): (r: nat)
    ensures r < 0x1_0000_0000_0000_0000
    ensures 0 <= v < 0x1_0000_0000_0000_0000 ==> r == v
  {
    v % 0x1_0000_0000_0000_0000
  }

  /** `main` hands `validateInput` the parsed `int` arguments converted to `size_t`: every negative
      value `std::stoi` can return wraps to a huge size and passes, as a grid size and as a block
      size. */
  lemma WrappedArgumentsAccepted(v: int)
    requires -0x8000_0000 <= v < 0
    ensures SizeT(v) == v + 0x1_0000_0000_0000_0000
    ensures !ValidateInput(SizeT(v), 8, 8, 1, 1, 1, 1)
    ensures !ValidateInput(8, 8, 8, SizeT(v), 1, 1, 1)
  {
    DivModUnique(v, 0x1_0000_0000_0000_0000, -1, v + 0x1_0000_0000_0000_0000);
  }
}
