/** src/sequential.cpp: the reference implementation of window A.  Every step
    copies its two windows into the scratch vectors v_m and v_mk, which are
    resized to k at the start of each diagonal, and writes the upper cell
    only; the lower triangle keeps the zeros it was allocated with. */
module Sequential {
  import opened Kernel
  import opened Matrix
  import opened Recurrence
  import opened Stage
  import opened Order

  /** The copy loop of step (k, m): v_m[j] := M[m][m+j] and
      v_mk[j] := M[m+k-j][m+k] for j < k.  The scratch vectors end up holding
      exactly the two read windows; M is only read. */
  method ReadWindowsA(M: array<real>, N: nat, k: nat, m: nat, vm: array<real>, vmk: array<real>)
    requires M.Length == N * N && m + k < N
    requires vm.Length == k && vmk.Length == k && vm != vmk
    modifies vm, vmk
    ensures vm[..] == RowWindow(M[..], N, m, k)
    ensures vmk[..] == ColumnWindow(M[..], N, m, k)
  {
    var j := 0;
    while j < k
      invariant 0 <= j <= k
      invariant forall t :: 0 <= t < j ==> vm[t] == M[Idx(N, m, m + t)] && vmk[t] == M[Idx(N, m + k - t, m + k)]
    {
      vm[j] := M[Idx(N, m, m + j)];
      vmk[j] := M[Idx(N, m + k - j, m + k)];
      j := j + 1;
    }
  }

  /** One step (k, m) of window A: fill the scratch vectors with the two
      windows, then M[m][m+k] := cbrt of their dot product.  No cell of M
      other than (m, m+k) changes.  The same body is the per-row work of
      wf-parallel.cpp and of the wf-farm.cpp Worker. */
  method RowStepA(M: array<real>, N: nat, fp: Fp, k: nat, m: nat, vm: array<real>, vmk: array<real>)
    requires M.Length == N * N && 1 <= k && m + k < N
    requires vm.Length == k && vmk.Length == k
    requires vm != M && vmk != M && vm != vmk
    modifies M, vm, vmk
    ensures M[..] == AfterStepA(old(M[..]), N, fp, k, m)
  {
    ReadWindowsA(M, N, k, m, vm, vmk);
    var result := CbrtOfDot(fp, vm[..], vmk[..]);
    M[Idx(N, m, m + k)] := result;
  }

  /** The row loop of diagonal k, after v_m and v_mk are resized to k: rows
      m = 0 .. N-k-1 in order.  It takes the buffer from the start of
      diagonal k to the start of diagonal k + 1. */
  method DiagonalA(M: array<real>, N: nat, fp: Fp, k: nat, ghost s0: seq<real>) returns (ghost steps: seq<Step>)
    requires M.Length == N * N && |s0| == N * N && 1 <= k < N
    requires StageA(M[..], s0, N, fp, k, {})
    modifies M
    ensures StageA(M[..], s0, N, fp, k + 1, {})
    ensures steps == RowSteps(k, N - k)
  {
    var vm := new real[k];
    var vmk := new real[k];
    var m := 0;
    ghost var done: set<nat> := {};
    steps := [];
    while m < N - k
      invariant 0 <= m <= N - k
      invariant forall i: nat :: i in done <==> i < m
      invariant StageA(M[..], s0, N, fp, k, done)
      invariant |steps| == m && forall p :: 0 <= p < m ==> steps[p] == Step(k, p)
    {
      ghost var s := M[..];
      RowStepA(M, N, fp, k, m, vm, vmk);
      AfterStepAIsRowsStep(s, N, fp, k, m);
      AdvanceRowsA(s, M[..], s0, N, fp, k, m, m + 1, done, {m});
      done := done + {m};
      steps := steps + [Step(k, m)];
      m := m + 1;
    }
    NextDiagonalA(M[..], s0, N, fp, k, done);
    RowStepsAre(k, N - k);
  }

  /** `wavefront` of sequential.cpp: diagonals k = 1 .. N-1 in order.  On
      return every upper cell holds the window-A recurrence of the seeded
      diagonal (the diagonal itself unchanged) and every lower cell its
      value on entry; `steps` is the Schedule of the run. */
  method Wavefront(M: array<real>, N: nat, fp: Fp) returns (ghost steps: seq<Step>)
    requires M.Length == N * N
    modifies M
    ensures steps == Schedule(N)
    ensures forall i: nat, j: nat :: i <= j < N ==> M[Idx(N, i, j)] == ValA(fp, Diagonal(old(M[..]), N), i, j)
    ensures forall i: nat, j: nat :: i < j < N ==> M[Idx(N, j, i)] == old(M[Idx(N, j, i)])
  {
    ghost var s0 := M[..];
    steps := [];
    var k := 1;
    while k < N
      invariant 1 <= k && (N >= 1 ==> k <= N)
      invariant StageA(M[..], s0, N, fp, k, {})
      invariant steps == if N == 0 then [] else DiagonalSteps(N, k)
    {
      ghost var rowSteps := DiagonalA(M, N, fp, k, s0);
      steps := steps + rowSteps;
      k := k + 1;
    }
  }
}
