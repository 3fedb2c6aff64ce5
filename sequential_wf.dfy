/** src/sequential_wf.cpp: the reference implementation of window B.  Every
    step writes its result twice, to the upper cell and to its lower mirror,
    and the mirror is what later steps read; the lower triangle is cleared
    at the end. */
module SequentialWf {
  import opened Kernel
  import opened Matrix
  import opened Recurrence
  import opened Stage
  import opened Order

  /** The j loop of one step (k, m) of window B: the products of M[m][m+j]
      and M[m+k][m+j+1], j < k, accumulated from j = 0 up.  The matrix is
      only read. */
  method AccumulateB(M: array<real>, N: nat, fp: Fp, k: nat, m: nat) returns (result: real)
    requires M.Length == N * N && m + k < N
    ensures result == Dot(fp, RowWindow(M[..], N, m, k), MirrorWindow(M[..], N, m, k))
  {
    ghost var row := RowWindow(M[..], N, m, k);
    result := 0.0;
    var j := 0;
    while j < k
      invariant 0 <= j <= k
      invariant result == Dot(fp, row[..j], MirrorWindow(M[..], N, m, k))
    {
      assert row[..j + 1][..j] == row[..j];
      result := fp.add(result, fp.mul(M[Idx(N, m, m + j)], M[Idx(N, m + k, m + j + 1)]));
      j := j + 1;
    }
    assert row[..k] == row;
  }

  /** One step (k, m) of window B: accumulate the products of M[m][m+j] and
      M[m+k][m+j+1] for j < k, take the cube root, and store it in M[m+k][m]
      and M[m][m+k].  No other cell changes.  The same body is the per-row
      work of ff_parallel_wf.cpp and of the ff_farm_wf.cpp Worker. */
  method RowStepB(M: array<real>, N: nat, fp: Fp, k: nat, m: nat)
    requires M.Length == N * N && 1 <= k && m + k < N
    modifies M
    ensures M[..] == AfterStepB(old(M[..]), N, fp, k, m)
  {
    var result := AccumulateB(M, N, fp, k, m);
    result := fp.cbrt(result);
    M[Idx(N, m + k, m)] := result;
    M[Idx(N, m, m + k)] := result;
  }

  /** The row loop of diagonal k: rows m = 0 .. N-k-1 in order.  It takes
      the buffer from the start of diagonal k to the start of diagonal k + 1;
      `steps` records the (k, m) of every RowStepB call. */
  method DiagonalB(M: array<real>, N: nat, fp: Fp, k: nat, ghost s0: seq<real>) returns (ghost steps: seq<Step>)
    requires M.Length == N * N && |s0| == N * N && 1 <= k < N
    requires StageB(M[..], s0, N, fp, k, {})
    modifies M
    ensures StageB(M[..], s0, N, fp, k + 1, {})
    ensures steps == RowSteps(k, N - k)
  {
    var m := 0;
    ghost var done: set<nat> := {};
    steps := [];
    while m < N - k
      invariant 0 <= m <= N - k
      invariant forall i: nat :: i in done <==> i < m
      invariant StageB(M[..], s0, N, fp, k, done)
      invariant |steps| == m && forall p :: 0 <= p < m ==> steps[p] == Step(k, p)
    {
      ghost var s := M[..];
      RowStepB(M, N, fp, k, m);
      AfterStepBIsRowsStep(s, N, fp, k, m);
      AdvanceRowsB(s, M[..], s0, N, fp, k, m, m + 1, done, {m});
      done := done + {m};
      steps := steps + [Step(k, m)];
      m := m + 1;
    }
    NextDiagonalB(M[..], s0, N, fp, k, done);
    RowStepsAre(k, N - k);
  }

  /** The two loops of `wavefront`: diagonals k = 1 .. N-1 in order, each
      with its rows in order.  Afterwards every upper cell holds the window-B
      recurrence of the seeded diagonal, and every lower cell holds the same
      value as its upper mirror.  `steps`, the (k, m) of every step in order,
      is the Schedule of the run. */
  method ComputeDiagonalsB(M: array<real>, N: nat, fp: Fp) returns (ghost steps: seq<Step>)
    requires M.Length == N * N
    modifies M
    ensures steps == Schedule(N)
    ensures forall i: nat, j: nat :: i <= j < N ==> M[Idx(N, i, j)] == ValB(fp, Diagonal(old(M[..]), N), i, j)
    ensures forall i: nat, j: nat :: i <= j < N ==> M[Idx(N, j, i)] == M[Idx(N, i, j)]
  {
    ghost var s0 := M[..];
    steps := [];
    var k := 1;
    while k < N
      invariant 1 <= k && (N >= 1 ==> k <= N)
      invariant StageB(M[..], s0, N, fp, k, {})
      invariant steps == if N == 0 then [] else DiagonalSteps(N, k)
    {
      ghost var rowSteps := DiagonalB(M, N, fp, k, s0);
      steps := steps + rowSteps;
      k := k + 1;
    }
  }

  /** `wavefront` of sequential_wf.cpp: the diagonal loops, then the clearing
      pass.  The result is the upper-triangular matrix of the window-B
      recurrence with a zero lower triangle. */
  method Wavefront(M: array<real>, N: nat, fp: Fp)
    requires M.Length == N * N
    modifies M
    ensures forall i: nat, j: nat :: i <= j < N ==> M[Idx(N, i, j)] == ValB(fp, Diagonal(old(M[..]), N), i, j)
    ensures forall i: nat, j: nat :: i < j < N ==> M[Idx(N, j, i)] == 0.0
  {
    ghost var steps := ComputeDiagonalsB(M, N, fp);
    ClearLowerTriangle(M, N);
  }
}
