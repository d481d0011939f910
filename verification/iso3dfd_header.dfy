/** Constants, the MIN macro and the STENCIL_LOOKUP macro shared by the ISO3DFD kernels. */
module Iso3dfdHeader {
  import opened Grid3

  /** Stencil radius: every axis has HALF_LENGTH halo cells on each side. */
  const HALF_LENGTH: nat := 8
  /** Time step and grid spacing (`DT`, `DXYZ`). */
  const DT: real := 0.002
  const DXYZ: real := 50.0
  /** The coefficient vector holds the self-weight and one weight per radius. */
  const COEFF_COUNT: nat := HALF_LENGTH + 1

  /** `MIN(a, b)`: `a` when `a < b`, else `b`. The macro has no outer
      parentheses; every use in the kernels is a whole initializer, where that is harmless. */
  function Min(a: int, b: int): (m: int)
    ensures m <= a && m <= b
    ensures m == a || m == b
  {
    if a < b then a else b
  }

  /** The padded grid `main` allocates: each interior size plus HALF_LENGTH halo cells on both sides. */
  function PaddedGrid(i1: nat, i2: nat, i3: nat): (g: Grid)
    ensures g.n1 - 2 * HALF_LENGTH == i1 && g.n2 - 2 * HALF_LENGTH == i2 && g.n3 - 2 * HALF_LENGTH == i3
  {
    Grid(i1 + 2 * HALF_LENGTH, i2 + 2 * HALF_LENGTH, i3 + 2 * HALF_LENGTH)
  }

  /** A grid is usable when each axis has at least one interior cell. */
  predicate ValidGrid(g: Grid) {
    g.n1 >= 2 * HALF_LENGTH + 1 && g.n2 >= 2 * HALF_LENGTH + 1 && g.n3 >= 2 * HALF_LENGTH + 1
  }

  /** The interior: `[HALF_LENGTH, dim - HALF_LENGTH)` on every axis. */
  predicate InInterior(g: Grid, x: int, y: int, z: int) {
    HALF_LENGTH <= x < g.n1 - HALF_LENGTH &&
    HALF_LENGTH <= y < g.n2 - HALF_LENGTH &&
    HALF_LENGTH <= z < g.n3 - HALF_LENGTH
  }

  /** A flat offset whose decoded cell lies in the interior. */
  predicate InteriorCell(g: Grid, c: int) {
    g.Plane() > 0 && InInterior(g, g.X(c), g.Y(c), g.Z(c))
  }

  /** The six offsets that STENCIL_LOOKUP reads lie inside a buffer of length `len`. */
  predicate LookupInBounds(len: int, ix: int, ir: int, n1: int, dimn1n2: int) {
    0 <= ix - ir < len && 0 <= ix + ir < len &&
    0 <= ix - ir * n1 < len && 0 <= ix + ir * n1 < len &&
    0 <= ix - ir * dimn1n2 < len && 0 <= ix + ir * dimn1n2 < len
  }

  /** `STENCIL_LOOKUP(ptr_prev, ix, ir, n1, dimn1n2)`: the radius-`ir` term of the stencil. */
  function StencilLookup(prev: seq<real>, coeff: seq<real>, ix: int, ir: int, n1: int, dimn1n2: int): real
    requires 0 <= ir < |coeff|
    requires LookupInBounds(|prev|, ix, ir, n1, dimn1n2)
  {
    coeff[ir] * ((prev[ix + ir] + prev[ix - ir]) +
                 (prev[ix + ir * n1] + prev[ix - ir * n1]) +
                 (prev[ix + ir * dimn1n2] + prev[ix - ir * dimn1n2]))
  }

  /** Shifting an offset by `r`, `r * n1` or `r * dimn1n2` moves the cell by `r` along x, y or z. */
  lemma Shifts(g: Grid, x: int, y: int, z: int, r: int)
    ensures g.Idx(x, y, z) + r == g.Idx(x + r, y, z) && g.Idx(x, y, z) - r == g.Idx(x - r, y, z)
    ensures g.Idx(x, y, z) + r * g.n1 == g.Idx(x, y + r, z) && g.Idx(x, y, z) - r * g.n1 == g.Idx(x, y - r, z)
    ensures g.Idx(x, y, z) + r * g.Plane() == g.Idx(x, y, z + r) && g.Idx(x, y, z) - r * g.Plane() == g.Idx(x, y, z - r)
  {
    assert (y + r) * g.n1 == y * g.n1 + r * g.n1;
    assert (y - r) * g.n1 == y * g.n1 - r * g.n1;
    assert (z + r) * g.Plane() == z * g.Plane() + r * g.Plane();
    assert (z - r) * g.Plane() == z * g.Plane() - r * g.Plane();
  }

  /** For an interior cell and a radius `1 <= ir <= HALF_LENGTH`, STENCIL_LOOKUP reads
      inside the buffer, and what it reads are exactly the x, y and z neighbours at distance `ir`. */
  lemma StencilNeighbours(g: Grid, prev: seq<real>, coeff: seq<real>, x: int, y: int, z: int, ir: int)
    requires |prev| == g.Size() && |coeff| == COEFF_COUNT
    requires InInterior(g, x, y, z) && 1 <= ir <= HALF_LENGTH
    ensures LookupInBounds(|prev|, g.Idx(x, y, z), ir, g.n1, g.Plane())
    ensures StencilLookup(prev, coeff, g.Idx(x, y, z), ir, g.n1, g.Plane()) ==
      coeff[ir] * ((prev[g.Idx(x + ir, y, z)] + prev[g.Idx(x - ir, y, z)]) +
                   (prev[g.Idx(x, y + ir, z)] + prev[g.Idx(x, y - ir, z)]) +
                   (prev[g.Idx(x, y, z + ir)] + prev[g.Idx(x, y, z - ir)]))
  {
    StencilInBounds(g, x, y, z, ir);
    Shifts(g, x, y, z, ir);
  }

  /** The halo guarantees that the six reads of an interior cell stay in the buffer. */
  lemma StencilInBounds(g: Grid, x: int, y: int, z: int, ir: int)
    requires InInterior(g, x, y, z) && 1 <= ir <= HALF_LENGTH
    ensures LookupInBounds(g.Size(), g.Idx(x, y, z), ir, g.n1, g.Plane())
  {
    Shifts(g, x, y, z, ir);
    g.IdxInRange(x + ir, y, z);
    g.IdxInRange(x - ir, y, z);
    g.IdxInRange(x, y + ir, z);
    g.IdxInRange(x, y - ir, z);
    g.IdxInRange(x, y, z + ir);
    g.IdxInRange(x, y, z - ir);
  }
}
