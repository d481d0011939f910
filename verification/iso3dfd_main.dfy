/** The flow of the ISO3DFD program: argument check, padded allocation, coefficient scaling,
    initialisation, the run, and the optional verification of its result. */
module Iso3dfdMain {
  import opened Grid3
  import opened Iso3dfdHeader
  import opened Iso3dfdSpec
  import opened Iso3dfd
  import opened Iso3dfdUtils
  import opened Iso3dfdVerify

  /** The finite-difference weights for HALF_LENGTH = 8, before the grid spacing is applied. */
  const RAW_COEFFICIENTS: seq<real> := [
    -3.0548446, 1.7777778, -0.31111111, 0.07572087, -0.0176767677,
    0.003480962, -0.0005180005, 0.00005074287, -0.00000242812
  ]

  /** The weights after `main` applies DX, DY and DZ: the self weight times `3/DXYZ²`, the others over `DXYZ²`. */
  function Scaled(raw: seq<real>): (r: seq<real>)
    requires |raw| == COEFF_COUNT
    ensures |r| == COEFF_COUNT
  {
    seq(COEFF_COUNT, i requires 0 <= i < COEFF_COUNT =>
      if i == 0 then (3.0 * raw[0]) / (DXYZ * DXYZ) else raw[i] / (DXYZ * DXYZ))
  }

  /** Multiplying back by `DXYZ²` recovers three times the raw self weight and every raw radius weight. */
  lemma ScaledInverse(raw: seq<real>)
    requires |raw| == COEFF_COUNT
    ensures Scaled(raw)[0] * (DXYZ * DXYZ) == 3.0 * raw[0]
    ensures forall i :: 1 <= i < COEFF_COUNT ==> Scaled(raw)[i] * (DXYZ * DXYZ) == raw[i]
  {
  }

  /** The in-place scaling of `coeff` in `main`. */
  method ScaleCoefficients(coeff: array<real>)
    requires coeff.Length == COEFF_COUNT
    modifies coeff
    ensures coeff[..] == Scaled(old(coeff[..]))
  {
    ghost var raw := coeff[..];
    coeff[0] := (3.0 * coeff[0]) / (DXYZ * DXYZ);
    for i := 1 to HALF_LENGTH + 1
      invariant coeff[0] == Scaled(raw)[0]
      invariant forall k :: 1 <= k < i ==> coeff[k] == Scaled(raw)[k]
      invariant forall k :: i <= k < COEFF_COUNT ==> coeff[k] == raw[k]
    {
      coeff[i] := coeff[i] / (DXYZ * DXYZ);
    }
  }

  /** `main` after argument parsing: `i1, i2, i3` are the interior sizes, `tiled` stands for
      the USE_TILED build and `verify` for the VERIFY_RESULTS build. Returns the exit status. */
  method Iso3dfdProgram(i1: nat, i2: nat, i3: nat, n1Tblock: nat, n2Tblock: nat, n3Tblock: nat,
                        nIterations: nat, tiled: bool, verify: bool) returns (exitCode: int)
    ensures ValidateInput(i1, i2, i3, n1Tblock, n2Tblock, n3Tblock, nIterations) ==> exitCode == 1
    ensures !ValidateInput(i1, i2, i3, n1Tblock, n2Tblock, n3Tblock, nIterations) ==> exitCode == 0
  {
    if ValidateInput(i1, i2, i3, n1Tblock, n2Tblock, n3Tblock, nIterations) {
      return 1;
    }
    var g := PaddedGrid(i1, i2, i3);
    var nsize := g.Size();
    var prev := new real[nsize];
    var next := new real[nsize];
    var vel := new real[nsize];
    var coeff := new real[COEFF_COUNT](i requires 0 <= i < COEFF_COUNT => RAW_COEFFICIENTS[i]);
    ScaleCoefficients(coeff);
    Initialize(prev, next, vel, g);
    ghost var start := Roles(prev[..], next[..]);
    Iso3dfdRun(next, prev, vel, coeff, g, nIterations, n1Tblock, n2Tblock, n3Tblock, tiled);
    var error := false;
    if verify {
      ghost var written := if nIterations % 2 == 1 then next[..] else prev[..];
      assert written == ReferenceField(g, coeff[..], nIterations);
      NoSelfMismatch(g, written, HALF_LENGTH, 0, 0.1);
      error := VerifyResults(next, prev, vel, coeff, g, nIterations, n1Tblock, n2Tblock, n3Tblock);
    }
    exitCode := if error then 1 else 0;
  }
}
