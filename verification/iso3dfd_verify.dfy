/** The host reference path of ISO3DFD: its own blocked kernel, a driver that does two
    steps per loop pass, and `verifyResults`, which re-runs it and compares with the primary path. */
module Iso3dfdVerify {
  import opened Grid3
  import opened Iso3dfdHeader
  import opened Iso3dfdSpec
  import opened Iso3dfd
  import opened Iso3dfdUtils

  /** The reference tile is given by its width `MIN(n1Tblock, n1End - bx)` counted from `bx`;
      it ends where the primary kernel's `MIN(bx + n1Tblock, n1End)` does. */
  lemma ReferenceTileWidth(tx: int, n1Tblock: int, n1End: int)
    ensures tx + Min(n1Tblock, n1End - tx) == Min(tx + n1Tblock, n1End)
  {
  }

  /** The `value` accumulator of the reference kernel: it starts at 0 and then adds the
      self term and the eight STENCIL_LOOKUP terms. */
  method ReferenceStencilValue(prev: seq<real>, coeff: seq<real>, g: Grid, c: int) returns (value: real)
    requires |coeff| == COEFF_COUNT && |prev| == g.Size()
    requires 0 <= c < g.Size() && InteriorCell(g, c)
    ensures value == CellValue(g, coeff, prev, c)
  {
    LookupsInBounds(g, c);
    var n1, dimn1n2 := g.n1, g.Plane();
    value := 0.0;
    value := value + prev[c] * coeff[0];
    value := value + StencilLookup(prev, coeff, c, 1, n1, dimn1n2);
    value := value + StencilLookup(prev, coeff, c, 2, n1, dimn1n2);
    value := value + StencilLookup(prev, coeff, c, 3, n1, dimn1n2);
    value := value + StencilLookup(prev, coeff, c, 4, n1, dimn1n2);
    value := value + StencilLookup(prev, coeff, c, 5, n1, dimn1n2);
    value := value + StencilLookup(prev, coeff, c, 6, n1, dimn1n2);
    value := value + StencilLookup(prev, coeff, c, 7, n1, dimn1n2);
    value := value + StencilLookup(prev, coeff, c, 8, n1, dimn1n2);
  }

  /** The reference loop body: the row pointers start at `base + iz*dimn1n2 + iy*n1 + bx` and
      are indexed by `ix` from 0, so the cell is (bx + ix, iy, iz). */
  method ReferenceUpdateCell(next: array<real>, prev: array<real>, vel: array<real>, coeff: array<real>, g: Grid,
                             tx: int, ix: int, iy: int, iz: int)
    requires Separate(next, prev, vel, coeff) && Fields(g, coeff[..], prev[..], vel[..], next[..])
    requires InInterior(g, tx + ix, iy, iz)
    modifies next
    ensures g.Plane() > 0 && 0 <= g.Idx(tx + ix, iy, iz) < g.Size() && InteriorCell(g, g.Idx(tx + ix, iy, iz))
    ensures next[..] == old(next[..])[g.Idx(tx + ix, iy, iz) :=
      Update(g, coeff[..], prev[..], vel[..], g.Idx(tx + ix, iy, iz), old(next[g.Idx(tx + ix, iy, iz)]))]
  {
    g.IdxInRange(tx + ix, iy, iz);
    g.DecodeIdx(tx + ix, iy, iz);
    var c := iz * g.Plane() + iy * g.n1 + tx + ix;
    var value := ReferenceStencilValue(prev[..], coeff[..], g, c);
    next[c] := Leapfrog(prev[c], next[c], value, vel[c]);
  }

  /** The three inner loops of `iso_3dfd_it_verify` over one tile: iz, iy, then `ix` in `[0, ixEnd)` from `bx`. */
  method ReferenceSweepTile(next: array<real>, prev: array<real>, vel: array<real>, coeff: array<real>, g: Grid,
                            tx: int, ixEnd: int, ty: int, iyEnd: int, tz: int, izEnd: int)
    requires Separate(next, prev, vel, coeff) && Fields(g, coeff[..], prev[..], vel[..], next[..])
    requires ValidGrid(g) && BoxInInterior(g, Box(tx, tx + ixEnd, ty, iyEnd, tz, izEnd))
    modifies next
    ensures g.Plane() > 0
    ensures forall c :: 0 <= c < g.Size() ==>
      next[c] == (if InBox(g, c, Box(tx, tx + ixEnd, ty, iyEnd, tz, izEnd))
                  then Update(g, coeff[..], prev[..], vel[..], c, old(next[c])) else old(next[c]))
  {
    ghost var next0 := next[..];
    ghost var b := Box(tx, tx + ixEnd, ty, iyEnd, tz, izEnd);
    assert g.Plane() > 0;
    for iz := tz to izEnd
      invariant forall c :: 0 <= c < g.Size() ==>
        next[c] == (if SweptZYX(g, c, b, iz, ty, tx) then Update(g, coeff[..], prev[..], vel[..], c, next0[c]) else next0[c])
    {
      for iy := ty to iyEnd
        invariant forall c :: 0 <= c < g.Size() ==>
          next[c] == (if SweptZYX(g, c, b, iz, iy, tx) then Update(g, coeff[..], prev[..], vel[..], c, next0[c]) else next0[c])
      {
        for ix := 0 to ixEnd
          invariant forall c :: 0 <= c < g.Size() ==>
            next[c] == (if SweptZYX(g, c, b, iz, iy, tx + ix) then Update(g, coeff[..], prev[..], vel[..], c, next0[c]) else next0[c])
        {
          ReferenceUpdateCell(next, prev, vel, coeff, g, tx, ix, iy, iz);
          g.OnlyCell(tx + ix, iy, iz);
          g.DecodeIdx(tx + ix, iy, iz);
        }
      }
    }
  }

  /** One call of `iso_3dfd_it_verify`: the same blocking loops as the primary kernel, with the
      x extent of each tile given as a width. */
  method ReferenceStep(next: array<real>, prev: array<real>, vel: array<real>, coeff: array<real>, g: Grid,
                       n1Tblock: int, n2Tblock: int, n3Tblock: int)
    requires Separate(next, prev, vel, coeff) && Fields(g, coeff[..], prev[..], vel[..], next[..])
    requires ValidGrid(g) && n1Tblock > 0 && n2Tblock > 0 && n3Tblock > 0
    modifies next
    ensures next[..] == Step(g, coeff[..], prev[..], vel[..], old(next[..]))
  {
    ghost var next0 := next[..];
    var n3End, n2End, n1End := g.n3 - HALF_LENGTH, g.n2 - HALF_LENGTH, g.n1 - HALF_LENGTH;
    var tz := HALF_LENGTH;
    while tz < n3End
      invariant HALF_LENGTH <= tz
      invariant forall c :: 0 <= c < g.Size() ==>
        next[c] == (if Blocked(g, c, tz, tz, 0, 0, 0) then Update(g, coeff[..], prev[..], vel[..], c, next0[c]) else next0[c])
      decreases n3End - tz
    {
      var ty := HALF_LENGTH;
      while ty < n2End
        invariant HALF_LENGTH <= ty
        invariant forall c :: 0 <= c < g.Size() ==>
          next[c] == (if Blocked(g, c, tz, Min(tz + n3Tblock, n3End), ty, ty, 0)
                      then Update(g, coeff[..], prev[..], vel[..], c, next0[c]) else next0[c])
        decreases n2End - ty
      {
        var tx := HALF_LENGTH;
        while tx < n1End
          invariant HALF_LENGTH <= tx
          invariant forall c :: 0 <= c < g.Size() ==>
            next[c] == (if Blocked(g, c, tz, Min(tz + n3Tblock, n3End), ty, Min(ty + n2Tblock, n2End), tx)
                        then Update(g, coeff[..], prev[..], vel[..], c, next0[c]) else next0[c])
          decreases n1End - tx
        {
          var izEnd := Min(tz + n3Tblock, n3End);
          var iyEnd := Min(ty + n2Tblock, n2End);
          var ixEnd := Min(n1Tblock, n1End - tx);
          ReferenceTileWidth(tx, n1Tblock, n1End);
          ReferenceSweepTile(next, prev, vel, coeff, g, tx, ixEnd, ty, iyEnd, tz, izEnd);
          tx := tx + n1Tblock;
        }
        ty := ty + n2Tblock;
      }
      tz := tz + n3Tblock;
    }
  }

  /** `iso_3dfd_verify`: each pass of the time loop steps into `next`, bumps `it`, and, if steps
      remain, steps back into `prev`; the buffers are never swapped. It runs exactly `nreps` steps
      and leaves the two buffers as the primary driver does. */
  method ReferenceRun(next: array<real>, prev: array<real>, vel: array<real>, coeff: array<real>, g: Grid,
                      nreps: nat, n1Tblock: int, n2Tblock: int, n3Tblock: int)
    requires Separate(next, prev, vel, coeff) && Separate(prev, next, vel, coeff)
    requires Fields(g, coeff[..], prev[..], vel[..], next[..]) && ValidGrid(g)
    requires n1Tblock > 0 && n2Tblock > 0 && n3Tblock > 0
    modifies next, prev
    ensures InBuffers(next[..], prev[..], Evolve(g, coeff[..], vel[..], Roles(old(prev[..]), old(next[..])), nreps), nreps)
  {
    ghost var start := Roles(prev[..], next[..]);
    var it := 0;
    while it < nreps
      invariant it % 2 == 0 && it <= nreps + 1
      invariant InBuffers(next[..], prev[..], Evolve(g, coeff[..], vel[..], start, Min(it, nreps)), Min(it, nreps))
      decreases nreps - it
    {
      ReferenceStep(next, prev, vel, coeff, g, n1Tblock, n2Tblock, n3Tblock);
      it := it + 1;
      if it < nreps {
        ReferenceStep(prev, next, vel, coeff, g, n1Tblock, n2Tblock, n3Tblock);
      }
      it := it + 1;
    }
  }

  /** The newest field of a run of `nIterations` steps from the state `initialize` leaves. */
  function ReferenceField(g: Grid, coeff: seq<real>, nIterations: nat): (r: seq<real>)
    requires |coeff| == COEFF_COUNT
    ensures |r| == g.Size()
  {
    Evolve(g, coeff, Uniform(g, VEL_INIT), Roles(InitialPrev(g), Uniform(g, 0.0)), nIterations).prev
  }

  /** `verifyResults`: snapshot the buffer the primary driver wrote last (`next` for an odd
      count, `prev` for an even one), re-initialise, re-run the reference, and compare the
      snapshot with the buffer of the same parity, masking a halo of HALF_LENGTH with tolerance 0.1. */
  method VerifyResults(next: array<real>, prev: array<real>, vel: array<real>, coeff: array<real>, g: Grid,
                       nIterations: nat, n1Tblock: int, n2Tblock: int, n3Tblock: int) returns (error: bool)
    requires Separate(next, prev, vel, coeff) && Separate(prev, next, vel, coeff) && vel != coeff
    requires Fields(g, coeff[..], prev[..], vel[..], next[..]) && ValidGrid(g) && SourceFits(g)
    requires n1Tblock > 0 && n2Tblock > 0 && n3Tblock > 0
    modifies next, prev, vel
    ensures var snapshot := if nIterations % 2 == 1 then old(next[..]) else old(prev[..]);
      error <==> Mismatch(g, snapshot, ReferenceField(g, coeff[..], nIterations), HALF_LENGTH, 0, 0.1)
  {
    ghost var written := if nIterations % 2 == 1 then next[..] else prev[..];
    var nsize := g.Size();
    var temp := new real[nsize];
    if nIterations % 2 == 1 {
      forall i | 0 <= i < nsize {
        temp[i] := next[i];
      }
    } else {
      forall i | 0 <= i < nsize {
        temp[i] := prev[i];
      }
    }
    assert temp[..] == written;
    Initialize(prev, next, vel, g);
    ReferenceRun(next, prev, vel, coeff, g, nIterations, n1Tblock, n2Tblock, n3Tblock);
    ghost var newest := ReferenceField(g, coeff[..], nIterations);
    assert Grid(g.n1, g.n2, g.n3) == g;
    if nIterations % 2 == 1 {
      assert next[..] == newest;
      error := WithinEpsilon(temp, next, g.n1, g.n2, g.n3, HALF_LENGTH, 0, 0.1);
    } else {
      assert prev[..] == newest;
      error := WithinEpsilon(temp, prev, g.n1, g.n2, g.n3, HALF_LENGTH, 0, 0.1);
    }
    assert temp[..] == written;
  }
}
