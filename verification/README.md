# Verified models of four HPC code samples

This project models, in Dafny, the computational core of four C++ code samples: ISO3DFD, 1-D
heat transfer, Mandelbrot and matrix multiplication. Each sample computes a result twice,
once on an accelerator (OpenMP offload, SYCL/DPC++) and once on the host, then compares the two.
The model follows each sample's loops and proves three things about them:

- what each loop nest computes;
- that the different loop orders and scheduling strategies compute the same thing;
- what the comparison accepts.

- **ISO3DFD** (`grid.dfy`, `iso3dfd_header.dfy`, `iso3dfd_spec.dfy`, `iso3dfd.dfy`, `utils.dfy`,
  `iso3dfd_verify.dfy`, `iso3dfd_main.dfy`). This is the 16th-order finite-difference stencil on a
  padded 3-D grid.
  - `Iso3dfdSpec.Step` defines one time step independently of any loop order, and
    `AnyOrderGivesStep` proves that every visiting order that touches each interior cell once
    gives that step.
  - The untiled kernel, the tiled kernel and the host reference kernel are each proved to compute
    `Step`.
  - Both ping-pong drivers are proved to compute `Evolve`, which is `Step` applied `nreps` times.
  - The model also covers `initialize` (the fields and the point source), the `within_epsilon`
    comparison, `validateInput` and `main`.
- **1-D heat transfer** (`heat.dfy`). `HeatStep` is one explicit Euler step with the boundary
  conditions the code applies.
  - The host driver is proved to run `HeatRun`, which swaps the buffers after every step.
  - The device driver is proved to run `DeviceRun`, which picks the buffers by the parity of the
    step.
  - `DeviceRunIsHeatRun` proves the two drivers leave the same temperatures in the buffer they
    return, so `CompareResults` reports no error.
- **Mandelbrot** (`mandel_point.dfy`, `mandel.dfy`, `mandel_sycl.dfy`, `mandel_serial.dfy`).
  - The escape-time loop `Point` is proved to return `EscapeTime`: the number of iterations
    completed before the orbit leaves the disc of radius 2, capped at the iteration limit.
  - Every evaluation routine fills each pixel with that count at the scaled point.
  - The two verification routines count differing pixels and apply a 5% tolerance. The compiler
    sample treats `> 0.05` as failure and the SYCL sample treats `< 0.05` as success;
    `MandelSycl.ToleranceBoundary` pins down where the two tests disagree.
- **Matrix multiplication** (`matrix_common.dfy`, `matrix_omp.dfy`, `matrix_dpcpp.dfy`). `a` is
  filled with ones and row `k` of `b` with `k + 1`.
  - Every cell of the product is `1 + 2 + ... + N` (`DotOfFills`).
  - The OpenMP i-k-j accumulation and the DPC++ per-cell dot product are both proved to compute
    the matrix product.
  - `VerifyResult` is proved to return 0 exactly when every cell equals the host product, and to
    report at most five mismatches. Both samples define an identical `VerifyResult`, and the
    model defines it once, in `MatrixCommon`.

`numeric.dfy` holds small arithmetic facts the other modules share.

## Model

| member | source | states |
|---|---|---|
| Grid3.Grid.IdxInRange | Compiler/iso3dfd_omp_offload/src/iso3dfd.cpp:44-46 | The offset `iz*dimn1n2 + iy*n1 + ix` of every cell of the padded grid lies inside the `n1*n2*n3` buffer. |
| Grid3.Grid.DecodeIdx | Compiler/iso3dfd_omp_offload/src/iso3dfd.cpp:44-46 | Dividing a cell's offset by the plane size and then by `n1` gives back its z, y and x coordinates. |
| Grid3.Grid.IdxDecode | Compiler/iso3dfd_omp_offload/src/iso3dfd.cpp:23-46 | Every offset below `size` is the offset of the in-grid cell it decodes to. |
| Grid3.Grid.OnlyCell | Compiler/iso3dfd_omp_offload/src/iso3dfd.cpp:44-46 | A cell's offset is the only offset of the buffer that decodes to that cell. |
| Grid3.Grid.IdxInjective | Compiler/iso3dfd_omp_offload/src/iso3dfd.cpp:44-46 | Distinct cells have distinct offsets, so writes to different cells never overlap. |
| Iso3dfdHeader.Min | Compiler/iso3dfd_omp_offload/include/iso3dfd.h:17 | `MIN(a, b)` is one of its arguments and no larger than either. |
| Iso3dfdHeader.PaddedGrid | Compiler/iso3dfd_omp_offload/src/iso3dfd.cpp:173-175 | Each allocated dimension is the interior size plus `2*HALF_LENGTH`. |
| Iso3dfdHeader.Shifts | Compiler/iso3dfd_omp_offload/include/iso3dfd.h:18-21 | Adding `ir`, `ir*n1` or `ir*dimn1n2` to an offset moves the cell by `ir` along x, y or z. |
| Iso3dfdHeader.StencilNeighbours | Compiler/iso3dfd_omp_offload/include/iso3dfd.h:18-21 | For an interior cell, `STENCIL_LOOKUP` reads in bounds and is `coeff[ir]` times the sum of the six neighbours at distance `ir` along the three axes. |
| Iso3dfdHeader.StencilInBounds | Compiler/iso3dfd_omp_offload/include/iso3dfd.h:18-21 | The `HALF_LENGTH` halo keeps all six reads of an interior cell inside the grid, for every radius up to `HALF_LENGTH`. |
| Iso3dfdSpec.LookupsInBounds | Compiler/iso3dfd_omp_offload/src/iso3dfd.cpp:48-56 | Every one of the eight lookups at an interior offset stays inside the buffer. |
| Iso3dfdSpec.Step | Compiler/iso3dfd_omp_offload/src/iso3dfd.cpp:41-59 | A time step gives a field with one value per grid cell. Interior cells get `2*prev - next + value*vel`, and the halo is unchanged. |
| Iso3dfdSpec.ApplyInOrder | Compiler/iso3dfd_omp_offload/src/iso3dfd.cpp:41-43 | Visiting interior cells one after another in a given order keeps the field the size of the grid. |
| Iso3dfdSpec.ApplyInOrderAt | Compiler/iso3dfd_omp_offload/src/iso3dfd.cpp:39-43 | Visiting distinct cells in any order updates exactly the visited cells, each as the step does, and leaves the others unchanged. |
| Iso3dfdSpec.AnyOrderGivesStep | Compiler/iso3dfd_omp_offload/src/iso3dfd.cpp:39-43 | Any order that visits every interior cell exactly once yields `Step`. This is why the collapsed parallel loops may run in any order. |
| Iso3dfdSpec.Evolve | Compiler/iso3dfd_omp_offload/src/iso3dfd.cpp:147-158 | `k` steps that each write the `next` role and then swap the roles keep the field sizes. |
| Iso3dfdSpec.TilesShape | Compiler/iso3dfd_omp_offload/src/iso3dfd.cpp:32-37 | A description of one blocking loop, independent of the kernels' proofs: the loop yields no tile exactly when `start >= end`. Tile `k` starts at `start + k*b`, ends at `MIN(start+(k+1)*b, end)`, is non-empty, and starts where the previous tile ended; the last tile ends at `end`. |
| Iso3dfdSpec.TilesOrdered | Compiler/iso3dfd_omp_offload/src/iso3dfd.cpp:32-37 | Of that description: every tile lies within `[start, end)`, and later tiles start no earlier than earlier tiles end. |
| Iso3dfdSpec.TilesPartition | Compiler/iso3dfd_omp_offload/src/iso3dfd.cpp:32-37 | Of that description: a coordinate lies in some tile exactly when it is in `[start, end)`, and then in exactly one tile. |
| Iso3dfd.StencilValue | Compiler/iso3dfd_omp_offload/src/iso3dfd.cpp:48-56 | The accumulated `value` is the self term plus the eight stencil terms, in order. |
| Iso3dfd.UpdateCell | Compiler/iso3dfd_omp_offload/src/iso3dfd.cpp:44-59 | The loop body writes the leapfrog update to the cell's offset in `next` and changes no other cell. |
| Iso3dfd.SweepTileZYX | Compiler/iso3dfd_omp_offload/src/iso3dfd.cpp:41-62 | The z-y-x loop nest updates exactly the cells of its box and leaves every other cell unchanged. |
| Iso3dfd.SweepTileYXZ | Compiler/iso3dfd_omp_offload/src/iso3dfd.cpp:100-121 | The y-x-z loop nest of the tiled kernel updates exactly the cells of its box and leaves every other cell unchanged. |
| Iso3dfd.IsoStep | Compiler/iso3dfd_omp_offload/src/iso3dfd.cpp:18-66 | `iso_3dfd_it` with any positive block sizes turns `next` into `Step` of the old contents. |
| Iso3dfd.IsoStepTiled | Compiler/iso3dfd_omp_offload/src/iso3dfd.cpp:77-126 | `iso_3dfd_it_tiled` with any positive tile sizes also turns `next` into `Step` of the old contents. |
| Iso3dfd.Iso3dfdRun | Compiler/iso3dfd_omp_offload/src/iso3dfd.cpp:136-159 | After `nreps` steps the caller's buffers hold the two fields of `Evolve` after `nreps` steps. Only the local pointers swap, so which buffer holds the newest field depends on the parity of `nreps`. |
| Iso3dfd.DefaultBuildOneTile | Compiler/iso3dfd_omp_offload/src/iso3dfd.cpp:29-37 | With the grid sizes as block sizes (the call at line 149), the tile description gives exactly one tile per axis, covering the whole interior. |
| Iso3dfdUtils.InitialPrev | iso3dfd_omp_offload/src/utils.cpp:45-57 | The field left by the source passes has one value per cell. |
| Iso3dfdUtils.LastPassEmpty | iso3dfd_omp_offload/src/utils.cpp:47-55 | The `s = 0` source pass writes nothing. |
| Iso3dfdUtils.CubesNested | iso3dfd_omp_offload/src/utils.cpp:47-55 | The cube of pass `s` lies inside the cube of every larger pass. |
| Iso3dfdUtils.OutsideSourceIsZero | iso3dfd_omp_offload/src/utils.cpp:45-57 | Outside the `s = 5` cube, `prev` stays 0. |
| Iso3dfdUtils.ShellValue | iso3dfd_omp_offload/src/utils.cpp:46-57 | A cell in the cube of pass `s` but not of pass `s-1` ends at `10^(5-s)`: the last pass that covers it wins. |
| Iso3dfdUtils.PeakValue | iso3dfd_omp_offload/src/utils.cpp:46-57 | The cell at `(n1/4, n2/4, n3/2)` ends at 10000. |
| Iso3dfdUtils.CubesInGrid | iso3dfd_omp_offload/src/utils.cpp:48-53 | Every source write lands inside the grid whenever the source fits, which `validateInput` guarantees (`ValidateInput`). |
| Iso3dfdUtils.Initialize | iso3dfd_omp_offload/src/utils.cpp:28-58 | `prev` becomes the source field; `next` becomes all zeros and `vel` all `2250000*DT*DT`. |
| Iso3dfdUtils.FillFields | iso3dfd_omp_offload/src/utils.cpp:33-44 | The fill loops set every cell of `prev` and `next` to 0 and every cell of `vel` to the velocity term. |
| Iso3dfdUtils.InjectCube | iso3dfd_omp_offload/src/utils.cpp:48-55 | One source pass writes `val` to exactly the cells of its cube and leaves every other cell unchanged. |
| Iso3dfdUtils.MismatchBeforeNext | iso3dfd_omp_offload/src/utils.cpp:104-122 | Scanning one more cell adds exactly that cell's verdict to the error. |
| Iso3dfdUtils.WithinEpsilon | iso3dfd_omp_offload/src/utils.cpp:93-128 | The result is true exactly when some compared cell differs by more than `delta`. A compared cell has x and y in `[radius, dim-radius)` and z in `[radius, dimz-radius+zadjust)`. |
| Iso3dfdUtils.HaloIgnored | iso3dfd_omp_offload/src/utils.cpp:107-109 | Two outputs that agree on the compared cells get the same verdict; differences in the halo never matter. |
| Iso3dfdUtils.NoSelfMismatch | iso3dfd_omp_offload/src/utils.cpp:110-113 | A field compared with itself never fails for a non-negative `delta`. |
| Iso3dfdUtils.ValidateInput | iso3dfd_omp_offload/src/utils.cpp:134-155 | When the input is accepted, the padded grid has an interior, the source fits in it, and the block sizes and iteration count are positive. |
| Iso3dfdUtils.ValidateInputBoundary | iso3dfd_omp_offload/src/utils.cpp:138-153 | A size of exactly 8 is accepted, although the message asks for sizes greater than 8. A size below 8, a zero block size or zero iterations is rejected. |
| Iso3dfdUtils.SizeT | Compiler/iso3dfd_omp_offload/src/iso3dfd.cpp:173-178 | Converting an `int` to `size_t` keeps the values in range and otherwise lands below 2^64. |
| Iso3dfdUtils.WrappedArgumentsAccepted | Compiler/iso3dfd_omp_offload/src/iso3dfd.cpp:187-188 | Every negative `int` that `std::stoi` can return becomes `v + 2^64` as a `size_t`, and `validateInput` accepts it both as a grid size and as a block size. |
| Iso3dfdVerify.ReferenceTileWidth | Compiler/iso3dfd_omp_offload/src/iso3dfd_verify.cpp:32 | The width `MIN(n1_Tblock, n1End - bx)` counted from `bx` ends where the primary kernel's `MIN(bx + n1_Tblock, n1End)` does. |
| Iso3dfdVerify.ReferenceStencilValue | Compiler/iso3dfd_omp_offload/src/iso3dfd_verify.cpp:41-50 | Starting from 0, the reference accumulator reaches the same stencil value as the primary kernel. |
| Iso3dfdVerify.ReferenceUpdateCell | Compiler/iso3dfd_omp_offload/src/iso3dfd_verify.cpp:36-52 | The reference body, with row pointers offset by `bx`, writes the leapfrog update to cell `(bx+ix, iy, iz)` only. |
| Iso3dfdVerify.ReferenceSweepTile | Compiler/iso3dfd_omp_offload/src/iso3dfd_verify.cpp:34-54 | The reference inner loops update exactly the cells of their box. |
| Iso3dfdVerify.ReferenceStep | Compiler/iso3dfd_omp_offload/src/iso3dfd_verify.cpp:15-59 | `iso_3dfd_it_verify` turns `next` into `Step` of the old contents, as the primary kernels do. |
| Iso3dfdVerify.ReferenceRun | Compiler/iso3dfd_omp_offload/src/iso3dfd_verify.cpp:67-83 | The two-calls-per-pass driver leaves the buffers where the swapping driver leaves them: `Evolve` after `nreps` steps, for odd and even `nreps`. |
| Iso3dfdVerify.ReferenceField | Compiler/iso3dfd_omp_offload/src/iso3dfd_verify.cpp:99-102 | The newest reference field of a run from the initial state has one value per cell. |
| Iso3dfdVerify.VerifyResults | Compiler/iso3dfd_omp_offload/src/iso3dfd_verify.cpp:85-116 | `verifyResults` snapshots the buffer the primary run wrote last, re-initialises, runs the reference, and returns `within_epsilon` with radius `HALF_LENGTH` and delta 0.1 of the snapshot against the reference's newest buffer. |
| Iso3dfdMain.Scaled | Compiler/iso3dfd_omp_offload/src/iso3dfd.cpp:217-220 | The scaled coefficient vector keeps `HALF_LENGTH + 1` entries. |
| Iso3dfdMain.ScaledInverse | Compiler/iso3dfd_omp_offload/src/iso3dfd.cpp:217-220 | Multiplying back by `DXYZ^2` gives three times the raw self weight, and each raw radius weight. |
| Iso3dfdMain.ScaleCoefficients | Compiler/iso3dfd_omp_offload/src/iso3dfd.cpp:216-220 | The in-place loop leaves `coeff` equal to the scaled vector. |
| Iso3dfdMain.Iso3dfdProgram | Compiler/iso3dfd_omp_offload/src/iso3dfd.cpp:161-254 | `main` exits with 1 exactly when `validateInput` rejects the arguments. Otherwise the primary and reference runs agree and it exits with 0. |
| HeatTransfer.Pin | Compiler/1d_HeatTransfer/src/1d_HeatTransfer.cpp:165 | Pinning sets index 0 to 100 and keeps every other index. |
| HeatTransfer.HeatStep | Compiler/1d_HeatTransfer/src/1d_HeatTransfer.cpp:165-171 | A step writes one value per index of the rod. |
| HeatTransfer.StepPrefix | Compiler/1d_HeatTransfer/src/1d_HeatTransfer.cpp:168-169 | A prefix of a step has the requested length. |
| HeatTransfer.StepPrefixAt | Compiler/1d_HeatTransfer/src/1d_HeatTransfer.cpp:168-169 | Index `k` of a step prefix is the update at `k`. |
| HeatTransfer.HeatStepAt | Compiler/1d_HeatTransfer/src/1d_HeatTransfer.cpp:165-171 | Index `k` of a step is: 100 at index 0; `C*(cur[k+1] - 2*cur[k] + cur[k-1]) + cur[k]` inside; a copy of `cur[num_p]` at `num_p+1`. |
| HeatTransfer.IsHeatStep | Compiler/1d_HeatTransfer/src/1d_HeatTransfer.cpp:165-171 | A buffer that holds the update at every index is the step. |
| HeatTransfer.ColdRod | Compiler/1d_HeatTransfer/src/1d_HeatTransfer.cpp:156-160 | The starting rod has `num_p + 2` cells. |
| HeatTransfer.HeatRun | Compiler/1d_HeatTransfer/src/1d_HeatTransfer.cpp:163-177 | Every step keeps both buffers at the rod's length. |
| HeatTransfer.Advance | Compiler/1d_HeatTransfer/src/1d_HeatTransfer.cpp:164-176 | One step with its swap keeps both buffers at the rod's length. |
| HeatTransfer.StepBoundaries | Compiler/1d_HeatTransfer/src/1d_HeatTransfer.cpp:165-171 | After a step, the left end is 100 and the right end copies the last rod point (100 when the rod has no interior point). |
| HeatTransfer.EquilibriumStays | Compiler/1d_HeatTransfer/src/1d_HeatTransfer.cpp:163-177 | A rod at 100 everywhere stays at 100 for any number of steps. |
| HeatTransfer.Initialize | Compiler/1d_HeatTransfer/src/1d_HeatTransfer.cpp:63-65 | Indices `idx .. num-1` become 0 and every other index keeps its value. |
| HeatTransfer.DeviceKernel | Compiler/1d_HeatTransfer/src/1d_HeatTransfer.cpp:113-126 | With the work-items in `gid` order, the kernel pins the read buffer and writes the step of the pinned rod into the other buffer. |
| HeatTransfer.DeviceRun | Compiler/1d_HeatTransfer/src/1d_HeatTransfer.cpp:91-130 | The parity-selected iterations keep both buffers at the rod's length. |
| HeatTransfer.DeviceIterate | Compiler/1d_HeatTransfer/src/1d_HeatTransfer.cpp:93-129 | One iteration keeps both buffers at the rod's length. |
| HeatTransfer.DeviceRunIsHeatRun | Compiler/1d_HeatTransfer/src/1d_HeatTransfer.cpp:91-137 | Choosing the buffer roles by the parity of `i` yields the same temperatures as swapping the buffers after every step. |
| HeatTransfer.DeviceIteration | Compiler/1d_HeatTransfer/src/1d_HeatTransfer.cpp:93-129 | One buffer scope changes the caller's two arrays exactly as `DeviceIterate` says. |
| HeatTransfer.ComputeHeatDeviceParallel | Compiler/1d_HeatTransfer/src/1d_HeatTransfer.cpp:70-144 | It returns `arr_next` after an odd number of steps and `arr` after an even number. The buffers end as `DeviceRun` from `t` at index 0. |
| HeatTransfer.HostStep | Compiler/1d_HeatTransfer/src/1d_HeatTransfer.cpp:164-171 | The host step pins `cur` and writes the step of the pinned rod into `next`. |
| HeatTransfer.ComputeHeatHostSerial | Compiler/1d_HeatTransfer/src/1d_HeatTransfer.cpp:149-180 | It returns `arr_next` after an odd number of steps and `arr` after an even number, and the returned buffer holds the newest temperatures of `HeatRun` from the cold rod. |
| HeatTransfer.CompareResults | Compiler/1d_HeatTransfer/src/1d_HeatTransfer.cpp:186-215 | The result is true exactly when some index `0 .. num_point+1` differs by more than 0.001. |
| HeatTransfer.HeatProgram | Compiler/1d_HeatTransfer/src/1d_HeatTransfer.cpp:217-295 | The device and host results agree, so the comparison reports no error and `main` exits with 0. |
| MandelPoint.MulLaws | mandelbrot/src/mandelParallel.h:35-42 | `complex_mul` is commutative and multiplies squared moduli. |
| MandelPoint.AddLaws | mandelbrot/src/mandelParallel.h:44-47 | `complex_add` is commutative, has 0 as its unit, and has inverses. |
| MandelPoint.EscapeFromSpec | Compiler/mandelbrot/src/mandel.hpp:51-60 | Searching from `i`, the result is the first escaping iterate below the cap, or the cap when there is none. |
| MandelPoint.EscapeTimeSpec | Compiler/mandelbrot/src/mandel.hpp:48-62 | The count is in `[0, max]` (0 when `max <= 0`). No iterate before it escapes, and the iterate at the count escapes unless the cap was reached. |
| MandelPoint.InSetIffBounded | Compiler/mandelbrot/src/mandel.hpp:51-60 | The count reaches the cap exactly when no iterate below the cap escapes. These are the points `Print` marks as in the set. |
| MandelPoint.OriginFixed | Compiler/mandelbrot/src/mandel.hpp:58 | The orbit of 0 stays at 0. |
| MandelPoint.OriginInSet | Compiler/mandelbrot/src/mandel.hpp:48-62 | The count of the origin is the cap. |
| MandelPoint.Point | Compiler/mandelbrot/src/mandel.hpp:48-62 | The loop returns the escape time, which is also what `point` in mandelbrot/src/mandelParallel.h and mandelbrot/src/mandelSerial.cpp return. |
| MandelPoint.StepRange | Compiler/mandelbrot/src/mandel.hpp:42-45 | `i * (2/n)` lies in `[0, 2)` for `0 <= i < n` and grows with `i`. |
| MandelPoint.ScaleRowRange | Compiler/mandelbrot/src/mandel.hpp:42 | Rows map into `[-1.5, 0.5)`, strictly increasing. |
| MandelPoint.ScaleColRange | Compiler/mandelbrot/src/mandel.hpp:45 | Columns map into `[-1, 1)`, strictly increasing. |
| Mandel.Trunc | Compiler/mandelbrot/src/mandel.hpp:133 | The `float` to `int` conversion truncates toward zero. |
| Mandel.TruncInt | Compiler/mandelbrot/src/mandel.hpp:184 | A count passed as `float` converts back to the same count. |
| Mandel.ExceedsToleranceExact | Compiler/mandelbrot/src/mandel.hpp:153-161 | `diff/total > 0.05` holds exactly when `total > 0` and `20*diff > total`. |
| Mandel.DiffCountSpec | Compiler/mandelbrot/src/mandel.hpp:145-151 | At most `n` cells differ, and none do exactly when the first `n` cells agree. |
| Mandel.SameImagePasses | Compiler/mandelbrot/src/mandel.hpp:139-168 | An image never exceeds the tolerance against itself. |
| Mandel.Mandel.constructor | Compiler/mandelbrot/src/mandel.hpp:72-75 | The image gets `row_count * col_count` fresh cells and the given parameters. |
| Mandel.Mandel.Put | Compiler/mandelbrot/src/mandel.hpp:202-214 | A write through the 2-D view of the buffer lands at row-major index `i*cols + j`, reads back, and changes no other cell. |
| Mandel.Mandel.SetValue | Compiler/mandelbrot/src/mandel.hpp:133 | The truncated value is stored at `i*col_count + j`, `GetValue` reads it back, and no other cell changes. |
| Mandel.Mandel.SerialEvaluate | Compiler/mandelbrot/src/mandel.hpp:177-187 | Every cell holds the escape count of its scaled point. |
| Mandel.Mandel.ParallelEvaluate | Compiler/mandelbrot/src/mandel.hpp:195-219 | Every cell holds the escape count of its scaled point, the same image the serial evaluation produces. |
| Mandel.Mandel.Verify | Compiler/mandelbrot/src/mandel.hpp:139-168 | A size mismatch throws. Otherwise it throws exactly when the differing-cell count exceeds the tolerance of the cell total. |
| Mandel.Execute | Compiler/mandelbrot/src/main.cpp:32-61 | A parallel image evaluated once plus `repetitions` more times and a serial image of the same size always pass `Verify`. |
| MandelSycl.WithinToleranceExact | mandelbrot/src/mandelParallel.h:139-145 | `diff/total < 0.05` holds exactly when `total > 0` and `20*diff < total`. |
| MandelSycl.ToleranceBoundary | mandelbrot/src/mandelParallel.h:139-151 | With no cells, or exactly one differing cell in twenty, the compiler sample's check passes while this one fails. Elsewhere the two tests agree. |
| MandelSycl.RowDiffSpec | mandelbrot/src/mandelParallel.h:134-138 | At most `n` cells of a row differ, and none do exactly when the row agrees. |
| MandelSycl.GridDiffSpec | mandelbrot/src/mandelParallel.h:134-138 | At most `rows*cols` cells differ, and none do exactly when the grids agree. |
| MandelSycl.AgreementPasses | mandelbrot/src/mandelParallel.h:128-152 | Two agreeing non-empty images are within the tolerance. |
| MandelSycl.MandelParallel.constructor | mandelbrot/src/mandelParallel.h:71-75 | The buffer is a fresh `row_count x col_count` grid. |
| MandelSycl.MandelParallel.Evaluate | mandelbrot/src/mandelParallel.h:91-98 | Cell `(i, j)` holds `point(scaleRow(i), scaleCol(j), max_iterations)`. |
| MandelSycl.MandelParallel.ValidatingResult | mandelbrot/src/mandelParallel.h:128-152 | It returns -1 on a size mismatch. Otherwise it returns 0 exactly when the share of differing cells is below 0.05, and -1 when it is not. |
| MandelSerialHost.MandelSerial.constructor | mandelbrot/src/mandelSerial.cpp:9-17 | The image has `row_count` fresh rows of `col_count` cells. |
| MandelSerialHost.MandelSerial.Evaluate | mandelbrot/src/mandelSerial.cpp:27-34 | Every `p[i][j]` holds the escape count of its scaled point, the same value the SYCL kernel writes. |
| MandelSerialHost.MandelSerial.GetBuffer | mandelbrot/src/mandelSerial.cpp:46 | It returns the image itself, with the constructor's dimensions. |
| MandelSerialHost.MandelSerial.GetRowCount | mandelbrot/src/mandelSerial.cpp:48 | It returns the constructor's row count, which is the image's number of rows. |
| MandelSerialHost.MandelSerial.GetColCount | mandelbrot/src/mandelSerial.cpp:49 | It returns the constructor's column count, which is the image's number of columns. |
| MatrixCommon.DotOfFills | matrix_mul/src/matrix_mul_omp.cpp:82-89 | With `a` all ones and `b[k][j] = k+1`, each product entry over `n` terms is `n(n+1)/2`. |
| MatrixCommon.FillOnes | matrix_mul/src/matrix_mul_omp.cpp:66-68 | Every cell of `a` becomes 1. The `FillBuffer_a` kernel of the DPC++ sample does the same. |
| MatrixCommon.FillRowIndex | matrix_mul/src/matrix_mul_omp.cpp:71-73 | Every cell of row `k` of `b` becomes `k+1`. The `FillBuffer_b` kernel does the same. |
| MatrixCommon.FillZero | matrix_mul/src/matrix_mul_omp.cpp:75-77 | Every cell of `c` becomes 0. |
| MatrixCommon.AccumulateRow | matrix_mul/src/matrix_mul_omp.cpp:85-87 | Row `i` of `c` gains `a[i][k]*b[k][j]` in every column, and the other rows are unchanged. |
| MatrixCommon.MultiplyAccumulate | matrix_mul/src/matrix_mul_omp.cpp:82-89 | The i-k-j nest adds the matrix product onto `c`: each cell gains its dot product. |
| MatrixCommon.RowMismatchesSpec | matrix_mul/src/matrix_mul_omp.cpp:172-182 | The count of mismatches in a row grows as the scan goes on, and is 0 exactly when the scanned cells all match. |
| MatrixCommon.MismatchesSpec | matrix_mul/src/matrix_mul_omp.cpp:171-185 | The count of mismatches over rows grows with the rows scanned, and is 0 exactly when every scanned cell matches. |
| MatrixCommon.HostReference | matrix_mul/src/matrix_mul_omp.cpp:137-165 | The host's own product is a fresh `M x P` matrix with `1+2+...+N` in every cell. |
| MatrixCommon.ScanRow | matrix_mul/src/matrix_mul_omp.cpp:172-182 | Scanning a row adds that row's mismatches to the printed count and stops at five. The mismatch flag is set exactly when something was printed. |
| MatrixCommon.VerifyResult | matrix_mul/src/matrix_mul_omp.cpp:128-200 | It returns 0 or -1, and 0 exactly when every cell equals the host product. It prints a mismatch line for the first `min(mismatches, 5)` mismatching cells. The same function appears at matrix_mul/src/matrix_mul_dpcpp.cpp:125-197. |
| MatrixMulOmp.Globals.constructor | matrix_mul/src/matrix_mul_omp.cpp:24-26 | The three global matrices are fresh and have the sizes `M x N`, `N x P` and `M x P`. |
| MatrixMulOmp.Globals.MatrixMulOpenMpGpuOffloading | matrix_mul/src/matrix_mul_omp.cpp:94-126 | The offloaded routine refills the globals and leaves `1+2+...+N` in every cell of `c`. |
| MatrixMulOmp.MatrixMulOpenMpCpu | matrix_mul/src/matrix_mul_omp.cpp:62-91 | After the fills, every cell of `c` is its entry of `a*b`, which is `1+2+...+N`. |
| MatrixMulOmp.CombineResults | matrix_mul/src/matrix_mul_omp.cpp:59 | `Result1 \|\| Result2` is 0 or 1, and 0 exactly when both checks returned 0. |
| MatrixMulOmp.Program | matrix_mul/src/matrix_mul_omp.cpp:43-60 | Both products pass the check, so `main` exits with 0. |
| MatrixMulDpcpp.CellSum | matrix_mul/src/matrix_mul_dpcpp.cpp:104-110 | A work-item's `sum` over `i < WidthA` is the dot product of row `row` of `A` with column `col` of `B`. |
| MatrixMulDpcpp.MatrixMult | matrix_mul/src/matrix_mul_dpcpp.cpp:89-113 | Every cell of `C` over the `M x P` range is its entry of `A*B`. |
| MatrixMulDpcpp.Program | matrix_mul/src/matrix_mul_dpcpp.cpp:29-123 | After the fill kernels and the product kernel, `c_back` passes the check, so `main` returns 0. |

## Left out

- Floating point: every `float`/`double` value is an exact `real`, or an `int` for the matrix
  samples. Rounding, NaN and overflow are therefore not modelled. In particular:
  - the ISO3DFD and heat comparisons are modelled with exact arithmetic, so "the two runs agree"
    means exact equality;
  - the Mandelbrot escape test and scaling use exact reals;
  - the tolerance quotients `diff/total` are compared as exact rationals rather than doubles.
- The matrix entries are `double` in both matrix samples. They are modelled as `int` because every
  value the samples produce (1, `k+1` and sums up to `N(N+1)/2 = 45150`) is an integer that a
  double represents exactly.
- Concurrency: OpenMP pragmas, SYCL queues, buffers, accessors and `parallel_for` are modelled as
  sequential loops in one fixed order.
  - For ISO3DFD, `AnyOrderGivesStep` shows that the order does not matter.
  - HeatTransfer.DeviceKernel: work-item 0 writes `arr_acc[0]` while work-item 1 reads it. The
    model takes the items in `gid` order, so work-item 1 reads the pinned value; another schedule
    could read the old one.
  - MatrixMulOmp.Globals.MatrixMulOpenMpGpuOffloading: the loop variables `i, j, k` are declared
    outside the target region (matrix_mul/src/matrix_mul_omp.cpp:96), and the `target teams
    distribute parallel for` at line 114 has no `private` clause, unlike the CPU version's
    `private(i,j,k)` at line 81. Only the distributed `i` is made private, so the threads share
    `j` and `k` and race on them. The model, and MatrixMulOmp.Program's exit code 0, hold for the
    sequential reading only.
- I/O: console output, `error_diff.txt`, `usage`, `printStats`, the timers and the device queries.
  The mismatch lines `VerifyResult` prints are modelled as their count `reported`. `Print`,
  `writeImage` and the Euclidean norm (`norm2`, `sqrt`), which is only printed, are not
  modelled.
- Argument parsing: `std::stoi` on `argv` and its exception path. The programs take the parsed
  values as parameters.
- Machine integers: `int`, `unsigned` and `size_t` are unbounded here. Overflow of `n1*n2*n3`
  or of the offsets is not modelled. Sizes and iteration counts are `nat`, so the C++ wrap of a
  negative argument is not modelled in the programs; the next three lines name what that leaves out.
- Iso3dfdMain.Iso3dfdProgram: takes the parsed sizes as `nat`. `main` stores the `std::stoi`
  results in `size_t` and passes the `int` values to `validateInput` as `size_t`, so a negative
  argument wraps and is accepted (Iso3dfdUtils.WrappedArgumentsAccepted proves the acceptance).
  The runs that follow are not modelled: a grid size of -5 gives `n1 = 11`, a grid with no
  interior on which the program exits with 0, and a negative block size reaches the reference
  blocking loop as a negative step, so `bx += n1_Tblock` never ends.
- Iso3dfdUtils.ValidateInput: is defined on `nat` arguments. The `size_t` values a negative
  argument wraps to are covered through Iso3dfdUtils.SizeT, but no smaller value is.
- HeatTransfer.HeatProgram: takes `n_point` and `n_iteration` as `nat`. In the source they are
  `unsigned`, so an argument of -1 makes `n_point` 2^32-1 and the allocation size `n_point + 2`
  wrap to 1, after which the loops write out of bounds. That run is not modelled.
- Iso3dfdUtils.WithinEpsilon: `dimz - radius + zadjust` is computed in `size_t` in the source. The
  model computes it on integers, which differs only when the bound would wrap.
- The `HALF_LENGTH == 4` build: only the default `HALF_LENGTH == 8` coefficients and stencil are
  modelled.
- Allocation: the constructors require non-negative dimensions. With a negative dimension the source
  either throws from `new` or, when the allocated size is still non-negative (both Mandelbrot
  counts negative, so their product is positive, or one count 0), builds an object whose loops
  never run. Those objects are not modelled.
  `int**` row arrays (mandelbrot/src/mandelSerial.cpp) and the 2-D SYCL buffers are `array2`.
- Helper methods such as `StencilValue`, `FillFields`, `InjectCube`, `HostStep`,
  `DeviceIteration`, `ScanRow`, `AccumulateRow`, `HostReference`, `CellSum` and `Put` split a
  loop nest of the source into its inner loops. They are the same computation, named.
- Iso3dfdSpec.Tiles: the kernel proofs (Iso3dfd.IsoStep, Iso3dfd.IsoStepTiled,
  Iso3dfdVerify.ReferenceStep) go through the predicate `Blocked` in their loop invariants, not
  through `Tiles`. `Tiles` and its lemmas are a separate description of the blocking loops.
- Mandel.Trunc: the `float` to `int` conversion is exact only for the integer counts the
  evaluation stores; other values are truncated as reals.
- HeatTransfer.ComputeHeatDeviceParallel: a SYCL runtime exception inside the device routine
  (Compiler/1d_HeatTransfer/src/1d_HeatTransfer.cpp:139-141) is caught, reported, and `arr` is
  returned partway through the run; the model has no such exception, so every run completes.
- Compiler/mandelbrot/src/main.cpp outside `Execute` (device queries, timing, printing and the image
  file), mandelbrot/src/main.cpp, `syclObject`, `dpc_common.hpp`, the N-body, particle
  diffusion, MPI and ISO2DFD samples are not part of this model.
