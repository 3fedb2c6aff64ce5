# Wavefront on an upper-triangular matrix: scheduling and index discipline

This project models the wavefront computation of the SPM-project repository
in Dafny. Every variant fills an N x N matrix, stored row-major in one flat
buffer, diagonal by diagonal. The main diagonal is seeded with (i + 1) / N.
Each cell (m, m+k) of the upper diagonal k is then the cube root of a dot
product of k values taken from diagonals below k.

The variants use two read windows, and the model keeps them apart:

- **Window A** (`sequential.cpp`, `wf-parallel.cpp`, `wf-farm.cpp`) pairs
  `M[m][m+j]` with `M[m+k-j][m+k]`. It writes only the upper cell. Its
  recurrence is `Recurrence.ValA`.
- **Window B** (`sequential_wf.cpp`, `ff_parallel_wf.cpp`, `ff_farm_wf.cpp`,
  `mpi_wf.cpp`) pairs `M[m][m+j]` with the lower mirror `M[m+k][m+j+1]`. It
  writes the upper cell and its mirror, and clears the lower triangle at the
  end. Its recurrence is `Recurrence.ValB`.
- `ff_parallel_wf_T.cpp` computes window B's sum through a transposed and
  reversed copy MT.

Cell values are abstract. Addition, multiplication and the cube root are the
three fields of `Kernel.Fp`, which is a parameter of every operation. The
recurrence results depend on none of their numeric properties. The only
concrete arithmetic is the seed (i+1)/N of the MPI and transposed variants,
which is exact real division.

What is proved:

- **Every variant that finishes computes its recurrence** (the two
  `parallel_for` variants with per-iteration locals, see "## Left out").
  Given the seeded main diagonal, each variant that ends does so with each upper cell holding
  its recurrence value. The window-B variants also end with a zero lower
  triangle. The window-A variants never write the lower triangle. Two
  variants, as written, do not always end (see "## Findings"). The wf-farm
  Emitter can stall after a diagonal (N = 3 with one worker does) and loops
  forever when N >= 2 and nw > N. The ff_farm Emitter never ends the stream for N = 1.
  Their corrected versions end for every N >= 1 with the same result.
- **Stages.** Module `Stage` describes the buffer part-way through a run:
  diagonals below k are finished, plus a set of rows of diagonal k. A row
  step, a task of rows, a whole parallel diagonal, or an MPI install each
  advance that stage.
- **No early reads.** A step reads only diagonals below its own
  (`Recurrence.WindowsReadBelow`). Rows of one diagonal write distinct cells.
  So any row order, and any split into farm tasks, gives the state the
  in-order loop gives.
- **Scheduling arithmetic.**
  - The chunks an Emitter sends tile the diagonal.
  - Counting feedback advances the diagonal exactly when the last chunk
    returns.
  - The MPI block partition tiles the diagonal.
  - The root's receive counts and displacements put row m at position m.
- **Runtimes.** The runtimes are sequential in the model:
  - The rows of a `parallel_for` run in an order given as a parameter.
  - A farm run delivers one in-flight task at a time, chosen freely.
  - MPI ranks run in rank order on one shared copy of the matrix.

## Model

| member | source | states |
|---|---|---|
| Kernel.DotProduct | include/utils.hpp:10-16 | the loop returns the sum of v1[i] * v2[i] for i < \|v1\|, accumulated from index 0; the sum of an empty v1 is 0 |
| Kernel.DotIgnoresTail | include/utils.hpp:12-13 | elements of v2 past \|v1\| never change the dot product |
| Kernel.CbrtOfDot | src/sequential.cpp:15-22 | the per-file `dotProduct` is the cube root of that same sum |
| Matrix.Idx | src/sequential.cpp:45-49 | the position of cell (r, c) with r, c < N lies inside the N*N buffer |
| Matrix.IdxIsRowMajor | src/sequential_wf.cpp:28-29 | cell (r, c) sits at r*N + c |
| Matrix.IdxInjective | src/sequential_wf.cpp:34-40 | distinct cells have distinct positions |
| Matrix.Layout | src/sequential_wf.cpp:34-40 | injectivity of the layout for all cells at once |
| Matrix.ClearLowerTriangle | src/sequential_wf.cpp:45-49 | afterwards every cell with c < r is 0 and the diagonal and upper triangle are unchanged |
| Recurrence.RowWindow | src/sequential_wf.cpp:32-35 | the row window M[m][m+j], j < k, has exactly k elements |
| Recurrence.ColumnWindow | src/sequential.cpp:44-47 | window A's column window M[m+k-j][m+k], j < k, has exactly k elements |
| Recurrence.MirrorWindow | src/sequential_wf.cpp:32-35 | window B's mirror window M[m+k][m+j+1], j < k, has exactly k elements |
| Recurrence.WindowsReadBelow | src/sequential_wf.cpp:32-35 | two buffers equal on the diagonals below k, in both triangles, give step (k, m) identical windows: a step never reads diagonal k or later |
| Recurrence.WindowsB | src/sequential_wf.cpp:32-35 | once diagonals below k are final, the j-th pair of window B is the final (m, m+j) and (m+j+1, m+k) |
| Recurrence.DotIsSumB | src/sequential_wf.cpp:32-36 | the dot product over window B's first t pairs is the recurrence's partial sum |
| Recurrence.StepB | src/sequential_wf.cpp:32-40 | under the window-B barrier, step (k, m) computes the final value of (m, m+k) |
| Recurrence.WindowsA | src/sequential.cpp:44-47 | once upper diagonals below k are final, the j-th pair of window A is the final (m, m+j) and (m+k-j, m+k) |
| Recurrence.DotIsSumA | src/sequential.cpp:44-49 | the dot product over window A's first t pairs is the recurrence's partial sum |
| Recurrence.StepA | src/sequential.cpp:44-49 | under the window-A barrier, step (k, m) computes the final value of (m, m+k) |
| Stage.BarrierB | src/sequential_wf.cpp:26-27 | while diagonal k is under way, every diagonal below it is final, mirror included |
| Stage.BarrierA | src/sequential.cpp:38-43 | while diagonal k is under way, every upper diagonal below it is final |
| Stage.NextDiagonalB | src/sequential_wf.cpp:26-42 | once all rows of diagonal k are done, diagonal k + 1 starts (window B) |
| Stage.NextDiagonalA | src/sequential.cpp:38-51 | once all rows of diagonal k are done, diagonal k + 1 starts (window A) |
| Stage.AfterStepBIsRowsStep | src/sequential_wf.cpp:38-40 | one window-B step sets (m+k, m) and (m, m+k) to the same kernel value and changes no other cell |
| Stage.AfterStepAIsRowsStep | src/sequential.cpp:49 | one window-A step sets (m, m+k) and changes no other cell, the lower triangle included |
| Stage.RowsStepBExtend | src/ff_farm_wf.cpp:108-121 | running row b after rows a .. b-1 is the same as running rows a .. b from the first state, since row b reads no cell they wrote |
| Stage.RowsStepAExtend | src/wf-farm.cpp:108-119 | the same for window A |
| Stage.AdvanceRowsB | src/ff_farm_wf.cpp:108-121 | rows a .. b-1 of diagonal k, run at stage (k, done), give stage (k, done + rows) |
| Stage.AdvanceRowsA | src/wf-farm.cpp:108-119 | the same for window A |
| Order.RowStepsAre | src/sequential_wf.cpp:27 | the rows of diagonal k are visited as 0, 1, .., N-k-1 |
| Order.DiagonalStepsAre | src/sequential_wf.cpp:26-27 | the diagonals below k consist of exactly the steps (k', m) with 1 <= k' < k and m + k' < N, in increasing order |
| Order.ScheduleExactlyOnce | src/sequential_wf.cpp:26-41 | every upper off-diagonal cell is computed by exactly one step, the main diagonal by none, and diagonals come in increasing order |
| Order.SmallSchedules | src/sequential_wf.cpp:26-27 | N = 1 runs no step; N = 2 runs exactly step (1, 0) |
| Chunks.CeilChunkSizeBounds | src/ff_farm_wf.cpp:43 | ceil(N / nw) is at least 1 when N >= 1, and it is the least size with which nw chunks cover N rows |
| Chunks.FloorChunkSizeZero | src/wf-farm.cpp:44 | N / nw is 0 exactly when nw > N |
| Chunks.EmitChunks | src/ff_farm_wf.cpp:52-55 | the dispatch loop sends (k, m, min(cs, n-m)) for m = 0, cs, 2cs, .. in that order |
| Chunks.StaticChunksShape | src/ff_farm_wf.cpp:52-55 | every chunk is a non-empty task of diagonal k inside [0, n), and chunks come in increasing row order without overlapping |
| Chunks.StaticChunksCover | src/ff_farm_wf.cpp:52-55 | every row of [0, n) is covered by some chunk |
| Chunks.StaticChunksSize | src/ff_farm_wf.cpp:52-55 | the chunk sizes add up to n |
| Chunks.StaticChunksTile | src/wf-farm.cpp:50-56 | one dispatch's chunks tile the diagonal and add up to its length |
| Chunks.TotalSizeRemove | src/ff_farm_wf.cpp:78 | taking one task out of flight removes exactly its rows from the count still expected |
| Chunks.CoveredRemove | src/ff_farm_wf.cpp:101-122 | a row covered by the in-flight tasks but not by the one taken out stays covered |
| Sequential.ReadWindowsA | src/sequential.cpp:44-47 | the copy loop fills v_m and v_mk, both of length k, with window A's row and column windows |
| Sequential.RowStepA | src/sequential.cpp:44-49 | one step stores the cube root of the dot product of the windows in (m, m+k) and nothing else |
| Sequential.DiagonalA | src/sequential.cpp:39-50 | the row loop of diagonal k visits rows 0 .. N-k-1 in order and takes stage (k, {}) to stage (k + 1, {}) |
| Sequential.Wavefront | src/sequential.cpp:34-52 | steps follow the schedule; every upper cell holds ValA of the seeded diagonal; the lower triangle keeps its values |
| SequentialWf.AccumulateB | src/sequential_wf.cpp:30-35 | the j loop returns the dot product of the row window and the mirror window, reading only |
| SequentialWf.RowStepB | src/sequential_wf.cpp:28-40 | one step stores the kernel value in (m+k, m) and (m, m+k) and nothing else |
| SequentialWf.DiagonalB | src/sequential_wf.cpp:27-41 | the row loop of diagonal k visits rows in order and takes stage (k, {}) to stage (k + 1, {}) |
| SequentialWf.ComputeDiagonalsB | src/sequential_wf.cpp:26-42 | steps follow the schedule; every upper cell holds ValB of the seeded diagonal and every lower cell equals its upper mirror |
| SequentialWf.Wavefront | src/sequential_wf.cpp:20-50 | upper cells hold ValB of the seeded diagonal and the lower triangle is 0 |
| FfParallelWf.ParallelDiagonalB | src/ff_parallel_wf.cpp:41-56 | the rows of diagonal k, in any order that runs each row once, take stage (k, {}) to stage (k + 1, {}) |
| FfParallelWf.ParallelWavefront | src/ff_parallel_wf.cpp:30-65 | for any row orders, upper cells hold ValB of the seeded diagonal and the lower triangle is 0 |
| WfParallel.ParallelDiagonalA | src/wf-parallel.cpp:41-52 | the rows of diagonal k, in any order that runs each row once, with windows of length k, take stage (k, {}) to stage (k + 1, {}) |
| WfParallel.ParallelWavefront | src/wf-parallel.cpp:34-54 | for any row orders, upper cells hold ValA of the seeded diagonal and the lower triangle is never written |
| FfParallelWfT.BarrierT | src/ff_parallel_wf_T.cpp:20-21 | while diagonal d is under way, every upper cell below it is final and mirrored in MT |
| FfParallelWfT.SeedDiagonals | src/ff_parallel_wf_T.cpp:57-60 | the seeding sets M[i][i] = (i+1)/N and MT[max-i][max-i] = M[i][i], and no other cell of M or of MT |
| FfParallelWfT.CellT | src/ff_parallel_wf_T.cpp:22-31 | every index is in [0, n) (the body also checks that each read MT[max-j][max-(k+1)] is M[k+1][j]); the d-term sum stored in M[i][j] and MT[max-j][max-i] is ValB(i, j); no other cell changes |
| FfParallelWfT.RowT | src/ff_parallel_wf_T.cpp:21-32 | row i of diagonal d, run at stage (d, done), gives stage (d, done + {i}): computed cells of M hold ValB and are mirrored in MT, every other cell of M and every MT cell that mirrors no computed cell keep their initial values |
| FfParallelWfT.ParallelDiagonalT | src/ff_parallel_wf_T.cpp:21-32 | the rows of diagonal d, in any order that runs each row once, take stage d to stage d + 1, for M and for MT alike |
| FfParallelWfT.ComputeUpperTriangle | src/ff_parallel_wf_T.cpp:15-34 | upper cells of M hold ValB of its seeded diagonal, MT[max-j][max-i] == M[i][j] for every upper cell, and the lower triangles of M and of MT are never written |
| FfFarmWf.Emitter.constructor | src/ff_farm_wf.cpp:41-45 | k starts at 1 and the chunk size is ceil(N / nw), at least one row |
| FfFarmWf.Emitter.Svc | src/ff_farm_wf.cpp:47-63 | sends the chunks of diagonal k, advances k by exactly one, and returns EOS exactly when the new k is N |
| FfFarmWf.Emitter.SvcFixed | src/ff_farm_wf.cpp:47-63 | as Svc, but EOS exactly when the new k is at least N |
| FfFarmWf.Collector.constructor | src/ff_farm_wf.cpp:71 | starts at diagonal 1 with nothing counted |
| FfFarmWf.Collector.Svc | src/ff_farm_wf.cpp:73-89 | no task changes nothing; a task adds its size, and when the count reaches N - k the count resets, k advances and exactly one signal is sent |
| FfFarmWf.WorkerSvc | src/ff_farm_wf.cpp:101-123 | rows task.m .. min(N-k, task.m+size)-1 are computed and nothing else changes; the task comes back unchanged |
| FfFarmWf.TaskRowsB | src/ff_farm_wf.cpp:108-121 | rows a .. b-1, run in order, each read the state the task started from |
| FfFarmWf.DispatchRunning | src/ff_farm_wf.cpp:52-55 | a freshly dispatched diagonal is covered by the tasks in flight, which add up to its length |
| FfFarmWf.NothingInFlightIsFinished | src/ff_farm_wf.cpp:80-86 | with nothing in flight the Collector has reached the last diagonal |
| FfFarmWf.TakeAndCompute | src/ff_farm_wf.cpp:101-123 | any in-flight task, computed by a worker, adds its rows to those done and leaves the remaining tasks covering the rest |
| FfFarmWf.Deliver | src/ff_farm_wf.cpp:73-89 | one delivery keeps the run invariant: signals come only when a diagonal is complete, and the Emitter then sends the next |
| FfFarmWf.FarmWavefront | src/ff_farm_wf.cpp:127-156 | for N >= 2 the run finishes with upper cells holding ValB and a zero lower triangle; for N = 1 it never finishes and M is untouched |
| FfFarmWf.FarmWavefrontFixed | src/ff_farm_wf.cpp:127-156 | with the corrected end test the run finishes for every N >= 1 with upper cells holding ValB and a zero lower triangle |
| WfFarm.Emitter.constructor | src/wf-farm.cpp:42-45 | k = 1, nothing counted, chunk size N / nw, which is 0 exactly when nw > N |
| WfFarm.Emitter.Fixed | src/wf-farm.cpp:42-45 | the corrected Emitter's chunk size ceil(N / nw) is at least one row |
| WfFarm.Emitter.Svc | src/wf-farm.cpp:47-81 | a start or a finished diagonal clears diag_done and sends the chunks (diverging when the chunk size is 0); a task is counted only while the count is below N - k; a complete count resets it, advances k, sets diag_done and returns GO_ON with no task; EOS exactly when k == N otherwise |
| WfFarm.Emitter.SvcFixed | src/wf-farm.cpp:66-78 | the counting call that completes a diagonal goes straight on to dispatch the next one, or returns EOS when k reaches N |
| WfFarm.WorkerSvc | src/wf-farm.cpp:96-126 | with v_m and v_mk of length k, rows task.m .. min(N-k, task.m+size)-1 get their window-A value and nothing else changes |
| WfFarm.TaskRowsA | src/wf-farm.cpp:108-119 | rows a .. b-1, run in order, each read the state the task started from |
| WfFarm.DispatchRunning | src/wf-farm.cpp:50-56 | a freshly dispatched diagonal is covered by the tasks in flight, which add up to its length |
| WfFarm.NothingInFlightIsNotRunning | src/wf-farm.cpp:60-66 | a diagonal still under way always has a task in flight |
| WfFarm.TakeAndCompute | src/wf-farm.cpp:96-126 | any in-flight task, computed by a worker, adds its rows to those done |
| WfFarm.DeliverAsWritten | src/wf-farm.cpp:58-74 | a feedback during diagonal 1 either leaves one task fewer in flight, or completes the diagonal with nothing in flight and no dispatch |
| WfFarm.DeliverFixed | src/wf-farm.cpp:58-78 | with the corrected Emitter a feedback leaves one task fewer in flight, or dispatches the next diagonal, or ends with EOS |
| WfFarm.FarmWavefrontAsWritten | src/wf-farm.cpp:139-160 | N = 1 finishes; N >= 2 with nw > N never leaves the first dispatch; otherwise the run stalls with only diagonals 0 and 1 computed and the lower triangle untouched; a run that finishes or diverges leaves M as it was |
| WfFarm.FarmWavefrontFixed | src/wf-farm.cpp:139-160 | with the corrected Emitter the run finishes for every N >= 1 and nw >= 1 with upper cells holding ValA and the lower triangle untouched |
| WfFarm.StallOnThreeByThree | src/wf-farm.cpp:66-74 | N = 3 and one worker stalls |
| WfFarm.DivergeOnTwoByTwo | src/wf-farm.cpp:44-52 | N = 2 and three workers never finish the first dispatch |
| MpiWf.PartitionBalanced | src/mpi_wf.cpp:64-68 | rank r's block has q + 1 rows for the first rem ranks and q for the others, so sizes differ by at most one |
| MpiWf.PartitionAdjacent | src/mpi_wf.cpp:67-68 | rank r's block ends where rank r + 1's starts |
| MpiWf.PartitionTiles | src/mpi_wf.cpp:64-68 | rank 0 starts at 0, the last rank ends at N - k, and earlier ranks' blocks lie before later ones' |
| MpiWf.OwnerExists | src/mpi_wf.cpp:67-68 | every row of the diagonal lies in some rank's block |
| MpiWf.OwnerUnique | src/mpi_wf.cpp:67-68 | no row lies in two ranks' blocks |
| MpiWf.GatherLayout | src/mpi_wf.cpp:92-97 | recv_counts[i] is rank i's block length and displs[i] its start row, and the counts add up to N - k |
| MpiWf.BlockInRange | src/mpi_wf.cpp:67-70 | each rank's block lies inside the diagonal |
| MpiWf.LocalCompute | src/mpi_wf.cpp:70-83 | local_results[t] is the window-B kernel of row start_row + t, for the rank's whole block; the matrix is only read |
| MpiWf.PlaceBlock | src/mpi_wf.cpp:101 | the gather writes a rank's results at its displacement and leaves the rest of the buffer alone |
| MpiWf.GatherDiagonal | src/mpi_wf.cpp:64-109 | after the gather and the broadcast, position m of diag_temp is row m's kernel value, for any number of ranks |
| MpiWf.InstallDiagonal | src/mpi_wf.cpp:111-119 | diag_temp[m] lands in (m+k, m) and (m, m+k) for every row m, and no cell off diagonal k changes |
| MpiWf.InstallAdvances | src/mpi_wf.cpp:111-119 | installing the gathered diagonal takes stage (k, {}) to stage (k + 1, {}) |
| MpiWf.MpiDiagonal | src/mpi_wf.cpp:63-120 | one iteration of the k loop takes stage (k, {}) to stage (k + 1, {}) |
| MpiWf.SeedMatrix | src/mpi_wf.cpp:40-60 | the matrix's main diagonal is the broadcast main_diag, (i+1)/N, and every other cell is 0 |
| MpiWf.MpiWavefront | src/mpi_wf.cpp:29-136 | N < 1 returns -1; otherwise status 0, upper cells hold ValB of (i+1)/N and the lower triangle is 0 |

## Left out

- Floating point: `double` addition, multiplication and `std::cbrt` are the uninterpreted fields of `Kernel.Fp`. No result compares values across different evaluation orders. The seed quotient (i+1)/N (mpi_wf.cpp:47, ff_parallel_wf_T.cpp:58-59) is exact real division in MpiWf.SeedMatrix and FfParallelWfT.SeedDiagonals, where the source rounds it to a `double`.
- Chunks.CeilChunkSizeBounds: ff_farm_wf.cpp:43 computes the ceiling through `double` division and `std::ceil`; the model uses the integer ceiling (N + nw - 1) / nw.
- Integer widths: `uint64_t`, `int` and `uint` are unbounded here. `N * N` in `int` (mpi_wf.cpp:39) and a `task_size` beyond `int` are not modelled, nor is wrap-around of `N - k`, which every loop keeps non-negative.
- FastFlow runtime: queues, `ff_send_out`, `wrap_around`, `run_and_wait_end` and the GO_ON/EOS protocol are modelled as one message delivered at a time from a sequence of in-flight tasks. Which task goes next is chosen freely. A run with nothing in flight and no EOS is a stall (`Stalled`, or `finished == false` in FfFarmWf.FarmWavefront).
- FfFarmWf.FarmWavefront: for N = 1 the farm never terminates (see "## Findings"); the model returns `finished == false` at that point instead of not returning.
- WfFarm.Emitter.Svc: the endless dispatch loop with `chunk_size == 0` is returned as the reply `Diverges` rather than looped.
- Concurrency and data races: `parallel_for` is a sequential loop over a row order given as a parameter. The shared `result`, `row_start` and `diag_row` of ff_parallel_wf.cpp:33-35 and the shared `v_m`/`v_mk` of wf-parallel.cpp:35 are per-iteration locals in the model.
- Heap lifetime: `new Task`, `new bool` and `delete` are not modelled, including the send-then-delete of the task at wf-farm.cpp:122-123, which frees a task still in flight.
- MPI runtime: `MPI_Init`, `MPI_Comm_rank`, `MPI_Finalize` and the processes themselves are left out. All ranks run the same code on the same data, so one copy of the matrix stands for every rank's copy. `MPI_Gatherv` is a placement at the displacements, `MPI_Bcast` a copy, and the ranks' local computations run in rank order.
- MpiWf.MpiWavefront: states the root's matrix only; the non-root ranks end without clearing their lower triangle. The `BENCHMARK` branch (mpi_wf.cpp:127-129) is left out.
- The seeding loops of `main` in sequential.cpp, sequential_wf.cpp, wf-parallel.cpp, ff_parallel_wf.cpp, ff_farm_wf.cpp and wf-farm.cpp are not modelled; their wavefront results are stated over whatever diagonal the matrix holds on entry. The seeding is modelled for mpi_wf.cpp (MpiWf.SeedMatrix) and ff_parallel_wf_T.cpp (FfParallelWfT.SeedDiagonals).
- Drivers and output: argument parsing, `printMatrix`, `printf` tracing and timing are left out.

## Findings

| source | as written | input that shows it | evidently intended | confidence | as-written member | corrected member |
|---|---|---|---|---|---|---|
| src/wf-farm.cpp:66-74 | the call that counts the last task of a diagonal advances k, sets `diag_done` and returns GO_ON without sending anything; no task is in flight, so no later call comes to dispatch the next diagonal | N = 3, nw = 1: diagonal 1 is computed, then the farm waits forever | dispatch the next diagonal (or return EOS when k reaches N) in that same call | not executed | WfFarm.StallOnThreeByThree | WfFarm.FarmWavefrontFixed |
| src/wf-farm.cpp:44 | `chunk_size = N / nw` is 0 when nw > N, and the dispatch loop `i += chunk_size` at line 52 then never advances | N = 2, nw = 3 | a chunk size of at least one row, as `ceil(N / nw)` in ff_farm_wf.cpp:43 | not executed | WfFarm.DivergeOnTwoByTwo | WfFarm.Emitter.Fixed |
| src/ff_farm_wf.cpp:57-62 | for N = 1 the first `svc` sends no task and moves k to 2, so `k == N` never holds: no EOS is sent, nothing is in flight and no signal ever comes | N = 1 | end the stream once no diagonal is left (`k >= N`) | not executed | FfFarmWf.FarmWavefront | FfFarmWf.FarmWavefrontFixed |
