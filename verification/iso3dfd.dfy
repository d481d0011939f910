/** The primary ISO3DFD path: one time step as blocked loop nests (untiled and tiled
    variants) and the ping-pong driver that runs `nreps` steps. */
module Iso3dfd {
  import opened Grid3
  import opened Iso3dfdHeader
  import opened Iso3dfdSpec

  /** The kernels write `next` and only read the other three buffers. */
  predicate Separate(next: array<real>, prev: array<real>, vel: array<real>, coeff: array<real>) {
    next != prev && next != vel && next != coeff
  }

  /** The `value` accumulator of the kernels: the self term, then the eight STENCIL_LOOKUP
      terms added one after another. */
  method StencilValue(prev: seq<real>, coeff: seq<real>, g: Grid, c: int) returns (value: real)
    requires |coeff| == COEFF_COUNT && |prev| == g.Size()
    requires 0 <= c < g.Size() && InteriorCell(g, c)
    ensures value == CellValue(g, coeff, prev, c)
  {
    LookupsInBounds(g, c);
    var n1, dimn1n2 := g.n1, g.Plane();
    value := prev[c] * coeff[0];
    value := value + StencilLookup(prev, coeff, c, 1, n1, dimn1n2);
    value := value + StencilLookup(prev, coeff, c, 2, n1, dimn1n2);
    value := value + StencilLookup(prev, coeff, c, 3, n1, dimn1n2);
    value := value + StencilLookup(prev, coeff, c, 4, n1, dimn1n2);
    value := value + StencilLookup(prev, coeff, c, 5, n1, dimn1n2);
    value := value + StencilLookup(prev, coeff, c, 6, n1, dimn1n2);
    value := value + StencilLookup(prev, coeff, c, 7, n1, dimn1n2);
    value := value + StencilLookup(prev, coeff, c, 8, n1, dimn1n2);
  }

  /** The loop body shared by both kernels at cell (ix, iy, iz): the row pointers
      `base + iz*dimn1n2 + iy*n1` indexed by `ix`, then the leapfrog write into `next`. */
  method UpdateCell(next: array<real>, prev: array<real>, vel: array<real>, coeff: array<real>, g: Grid, ix: int, iy: int, iz: int)
    requires Separate(next, prev, vel, coeff) && Fields(g, coeff[..], prev[..], vel[..], next[..])
    requires InInterior(g, ix, iy, iz)
    modifies next
    ensures g.Plane() > 0 && 0 <= g.Idx(ix, iy, iz) < g.Size() && InteriorCell(g, g.Idx(ix, iy, iz))
    ensures next[..] == old(next[..])[g.Idx(ix, iy, iz) :=
      Update(g, coeff[..], prev[..], vel[..], g.Idx(ix, iy, iz), old(next[g.Idx(ix, iy, iz)]))]
  {
    g.IdxInRange(ix, iy, iz);
    g.DecodeIdx(ix, iy, iz);
    var c := iz * g.Plane() + iy * g.n1 + ix;
    var value := StencilValue(prev[..], coeff[..], g, c);
    next[c] := Leapfrog(prev[c], next[c], value, vel[c]);
  }

  /** Cells of the box already visited by the z-y-x nest when it stands at (ix, iy, iz). */
  predicate SweptZYX(g: Grid, c: int, b: Box, iz: int, iy: int, ix: int)
    requires g.Plane() > 0
  {
    InBox(g, c, b) && (g.Z(c) < iz || (g.Z(c) == iz && (g.Y(c) < iy || (g.Y(c) == iy && g.X(c) < ix))))
  }

  /** Cells of the box already visited by the y-x-z nest when it stands at (iy, ix, iz). */
  predicate SweptYXZ(g: Grid, c: int, b: Box, iy: int, ix: int, iz: int)
    requires g.Plane() > 0
  {
    InBox(g, c, b) && (g.Y(c) < iy || (g.Y(c) == iy && (g.X(c) < ix || (g.X(c) == ix && g.Z(c) < iz))))
  }

  /** The three inner loops of `iso_3dfd_it` over one tile: iz outermost, ix innermost. */
  method SweepTileZYX(next: array<real>, prev: array<real>, vel: array<real>, coeff: array<real>, g: Grid, b: Box)
    requires Separate(next, prev, vel, coeff) && Fields(g, coeff[..], prev[..], vel[..], next[..])
    requires ValidGrid(g) && BoxInInterior(g, b)
    modifies next
    ensures g.Plane() > 0
    ensures forall c :: 0 <= c < g.Size() ==>
      next[c] == (if InBox(g, c, b) then Update(g, coeff[..], prev[..], vel[..], c, old(next[c])) else old(next[c]))
  {
    ghost var next0 := next[..];
    assert g.Plane() > 0;
    for iz := b.z0 to b.z1
      invariant forall c :: 0 <= c < g.Size() ==>
        next[c] == (if SweptZYX(g, c, b, iz, b.y0, b.x0) then Update(g, coeff[..], prev[..], vel[..], c, next0[c]) else next0[c])
    {
      for iy := b.y0 to b.y1
        invariant forall c :: 0 <= c < g.Size() ==>
          next[c] == (if SweptZYX(g, c, b, iz, iy, b.x0) then Update(g, coeff[..], prev[..], vel[..], c, next0[c]) else next0[c])
      {
        for ix := b.x0 to b.x1
          invariant forall c :: 0 <= c < g.Size() ==>
            next[c] == (if SweptZYX(g, c, b, iz, iy, ix) then Update(g, coeff[..], prev[..], vel[..], c, next0[c]) else next0[c])
        {
          UpdateCell(next, prev, vel, coeff, g, ix, iy, iz);
          g.OnlyCell(ix, iy, iz);
          g.DecodeIdx(ix, iy, iz);
        }
      }
    }
  }

  /** The three inner loops of `iso_3dfd_it_tiled` over one tile: iy outermost, iz innermost. */
  method SweepTileYXZ(next: array<real>, prev: array<real>, vel: array<real>, coeff: array<real>, g: Grid, b: Box)
    requires Separate(next, prev, vel, coeff) && Fields(g, coeff[..], prev[..], vel[..], next[..])
    requires ValidGrid(g) && BoxInInterior(g, b)
    modifies next
    ensures g.Plane() > 0
    ensures forall c :: 0 <= c < g.Size() ==>
      next[c] == (if InBox(g, c, b) then Update(g, coeff[..], prev[..], vel[..], c, old(next[c])) else old(next[c]))
  {
    ghost var next0 := next[..];
    assert g.Plane() > 0;
    for iy := b.y0 to b.y1
      invariant forall c :: 0 <= c < g.Size() ==>
        next[c] == (if SweptYXZ(g, c, b, iy, b.x0, b.z0) then Update(g, coeff[..], prev[..], vel[..], c, next0[c]) else next0[c])
    {
      for ix := b.x0 to b.x1
        invariant forall c :: 0 <= c < g.Size() ==>
          next[c] == (if SweptYXZ(g, c, b, iy, ix, b.z0) then Update(g, coeff[..], prev[..], vel[..], c, next0[c]) else next0[c])
      {
        for iz := b.z0 to b.z1
          invariant forall c :: 0 <= c < g.Size() ==>
            next[c] == (if SweptYXZ(g, c, b, iy, ix, iz) then Update(g, coeff[..], prev[..], vel[..], c, next0[c]) else next0[c])
        {
          UpdateCell(next, prev, vel, coeff, g, ix, iy, iz);
          g.OnlyCell(ix, iy, iz);
          g.DecodeIdx(ix, iy, iz);
        }
      }
    }
  }

  /** Interior cells the blocking loops have finished when they stand at the tile starting at (tx, ty, tz) (`bx`, `by`, `bz` in the kernels):
      every plane below `tz`; in the current z-slab `[tz, izEnd)` every row below `ty`;
      and in the current row-slab `[ty, iyEnd)` every column below `tx`. */
  predicate Blocked(g: Grid, c: int, tz: int, izEnd: int, ty: int, iyEnd: int, tx: int)
    requires g.Plane() > 0
  {
    InteriorCell(g, c) &&
    (g.Z(c) < tz || (g.Z(c) < izEnd && (g.Y(c) < ty || (g.Y(c) < iyEnd && g.X(c) < tx))))
  }

  /** One call of `iso_3dfd_it`: tiles of `n1Tblock x n2Tblock x n3Tblock` cells, each swept z, y, x. */
  method IsoStep(next: array<real>, prev: array<real>, vel: array<real>, coeff: array<real>, g: Grid,
                 n1Tblock: int, n2Tblock: int, n3Tblock: int)
    requires Separate(next, prev, vel, coeff) && Fields(g, coeff[..], prev[..], vel[..], next[..])
    requires ValidGrid(g) && n1Tblock > 0 && n2Tblock > 0 && n3Tblock > 0
    modifies next
    ensures next[..] == Step(g, coeff[..], prev[..], vel[..], old(next[..]))
  {
    ghost var next0 := next[..];
    var n3End, n2End, n1End := g.n3 - HALF_LENGTH, g.n2 - HALF_LENGTH, g.n1 - HALF_LENGTH;
    var tz := HALF_LENGTH;
    while tz < n3End
      invariant HALF_LENGTH <= tz
      invariant forall c :: 0 <= c < g.Size() ==>
        next[c] == (if Blocked(g, c, tz, tz, 0, 0, 0) then Update(g, coeff[..], prev[..], vel[..], c, next0[c]) else next0[c])
      decreases n3End - tz
    {
      var ty := HALF_LENGTH;
      while ty < n2End
        invariant HALF_LENGTH <= ty
        invariant forall c :: 0 <= c < g.Size() ==>
          next[c] == (if Blocked(g, c, tz, Min(tz + n3Tblock, n3End), ty, ty, 0)
                      then Update(g, coeff[..], prev[..], vel[..], c, next0[c]) else next0[c])
        decreases n2End - ty
      {
        var tx := HALF_LENGTH;
        while tx < n1End
          invariant HALF_LENGTH <= tx
          invariant forall c :: 0 <= c < g.Size() ==>
            next[c] == (if Blocked(g, c, tz, Min(tz + n3Tblock, n3End), ty, Min(ty + n2Tblock, n2End), tx)
                        then Update(g, coeff[..], prev[..], vel[..], c, next0[c]) else next0[c])
          decreases n1End - tx
        {
          var izEnd := Min(tz + n3Tblock, n3End);
          var iyEnd := Min(ty + n2Tblock, n2End);
          var ixEnd := Min(tx + n1Tblock, n1End);
          SweepTileZYX(next, prev, vel, coeff, g, Box(tx, ixEnd, ty, iyEnd, tz, izEnd));
          tx := tx + n1Tblock;
        }
        ty := ty + n2Tblock;
      }
      tz := tz + n3Tblock;
    }
  }
  /** One call of `iso_3dfd_it_tiled`: the same tiles, each swept y, x, z. */
  method IsoStepTiled(next: array<real>, prev: array<real>, vel: array<real>, coeff: array<real>, g: Grid,
                 n1Tblock: int, n2Tblock: int, n3Tblock: int)
    requires Separate(next, prev, vel, coeff) && Fields(g, coeff[..], prev[..], vel[..], next[..])
    requires ValidGrid(g) && n1Tblock > 0 && n2Tblock > 0 && n3Tblock > 0
    modifies next
    ensures next[..] == Step(g, coeff[..], prev[..], vel[..], old(next[..]))
  {
    ghost var next0 := next[..];
    var n3End, n2End, n1End := g.n3 - HALF_LENGTH, g.n2 - HALF_LENGTH, g.n1 - HALF_LENGTH;
    var tz := HALF_LENGTH;
    while tz < n3End
      invariant HALF_LENGTH <= tz
      invariant forall c :: 0 <= c < g.Size() ==>
        next[c] == (if Blocked(g, c, tz, tz, 0, 0, 0) then Update(g, coeff[..], prev[..], vel[..], c, next0[c]) else next0[c])
      decreases n3End - tz
    {
      var ty := HALF_LENGTH;
      while ty < n2End
        invariant HALF_LENGTH <= ty
        invariant forall c :: 0 <= c < g.Size() ==>
          next[c] == (if Blocked(g, c, tz, Min(tz + n3Tblock, n3End), ty, ty, 0)
                      then Update(g, coeff[..], prev[..], vel[..], c, next0[c]) else next0[c])
        decreases n2End - ty
      {
        var tx := HALF_LENGTH;
        while tx < n1End
          invariant HALF_LENGTH <= tx
          invariant forall c :: 0 <= c < g.Size() ==>
            next[c] == (if Blocked(g, c, tz, Min(tz + n3Tblock, n3End), ty, Min(ty + n2Tblock, n2End), tx)
                        then Update(g, coeff[..], prev[..], vel[..], c, next0[c]) else next0[c])
          decreases n1End - tx
        {
          var izEnd := Min(tz + n3Tblock, n3End);
          var iyEnd := Min(ty + n2Tblock, n2End);
          var ixEnd := Min(tx + n1Tblock, n1End);
          SweepTileYXZ(next, prev, vel, coeff, g, Box(tx, ixEnd, ty, iyEnd, tz, izEnd));
          tx := tx + n1Tblock;
        }
        ty := ty + n2Tblock;
      }
      tz := tz + n3Tblock;
    }
  }

  /** `iso_3dfd`: `nreps` steps with `ptr_next`/`ptr_prev` as ping-pong buffers. Only the local
      pointers are swapped, so step k writes the caller's `next` for even k and its `prev` for odd k.
      `tiled` stands for the USE_TILED build; the default build passes the grid sizes as block sizes. */
  method Iso3dfdRun(next: array<real>, prev: array<real>, vel: array<real>, coeff: array<real>, g: Grid,
                    nreps: nat, n1Tblock: int, n2Tblock: int, n3Tblock: int, tiled: bool)
    requires Separate(next, prev, vel, coeff) && Separate(prev, next, vel, coeff)
    requires Fields(g, coeff[..], prev[..], vel[..], next[..]) && ValidGrid(g)
    requires tiled ==> n1Tblock > 0 && n2Tblock > 0 && n3Tblock > 0
    modifies next, prev
    ensures InBuffers(next[..], prev[..], Evolve(g, coeff[..], vel[..], Roles(old(prev[..]), old(next[..])), nreps), nreps)
  {
    ghost var start := Roles(prev[..], next[..]);
    var ptrNext, ptrPrev := next, prev;
    for it := 0 to nreps
      invariant it % 2 == 0 ==> ptrNext == next && ptrPrev == prev
      invariant it % 2 == 1 ==> ptrNext == prev && ptrPrev == next
      invariant ptrPrev[..] == Evolve(g, coeff[..], vel[..], start, it).prev
      invariant ptrNext[..] == Evolve(g, coeff[..], vel[..], start, it).next
    {
      if tiled {
        IsoStepTiled(ptrNext, ptrPrev, vel, coeff, g, n1Tblock, n2Tblock, n3Tblock);
      } else {
        IsoStep(ptrNext, ptrPrev, vel, coeff, g, g.n1, g.n2, g.n3);
      }
      var temp := ptrNext;
      ptrNext := ptrPrev;
      ptrPrev := temp;
    }
  }

  /** With the grid sizes as block sizes (the default build) each axis has exactly one tile, the whole interior. */
  lemma DefaultBuildOneTile(n: nat)
    requires n >= 2 * HALF_LENGTH + 1
    ensures Tiles(HALF_LENGTH, n - HALF_LENGTH, n) == [(HALF_LENGTH, n - HALF_LENGTH)]
  {
    assert Tiles(HALF_LENGTH + n, n - HALF_LENGTH, n) == [];
  }
}
