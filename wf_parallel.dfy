/** src/wf-parallel.cpp: window A with the rows of each diagonal handed to a
    FastFlow parallel_for, in an order the runtime chooses (a parameter of
    the model).  The scratch vectors v_m and v_mk, shared by all iterations in
    the source, are per-iteration here. */
module WfParallel {
  import opened Kernel
  import opened Matrix
  import opened Recurrence
  import opened Stage
  import opened Order
  import opened Sequential

  /** The `parallel_for` of diagonal k: for each row, in the runtime's order,
      scratch vectors of length k and the window-A step.  It takes the buffer
      from the start of diagonal k to the start of diagonal k + 1, the state
      the in-order loop of sequential.cpp reaches. */
  method ParallelDiagonalA(M: array<real>, N: nat, fp: Fp, k: nat, order: seq<nat>, ghost s0: seq<real>)
    requires M.Length == N * N && |s0| == N * N && 1 <= k < N
    requires IsRowOrder(order, N - k)
    requires StageA(M[..], s0, N, fp, k, {})
    modifies M
    ensures StageA(M[..], s0, N, fp, k + 1, {})
  {
    var p := 0;
    ghost var done: set<nat> := {};
    while p < |order|
      invariant 0 <= p <= |order|
      invariant forall m: nat :: m in done <==> m in order[..p]
      invariant StageA(M[..], s0, N, fp, k, done)
    {
      var m := order[p];
      assert m in order;
      var vm := new real[k];
      var vmk := new real[k];
      ghost var s := M[..];
      RowStepA(M, N, fp, k, m, vm, vmk);
      AfterStepAIsRowsStep(s, N, fp, k, m);
      AdvanceRowsA(s, M[..], s0, N, fp, k, m, m + 1, done, {m});
      done := done + {m};
      assert order[..p + 1] == order[..p] + [m];
      p := p + 1;
    }
    assert order[..p] == order;
    NextDiagonalA(M[..], s0, N, fp, k, done);
  }

  /** `parallelwavefront` of wf-parallel.cpp: diagonal k + 1 starts only once
      diagonal k is finished; there is no clearing pass.  Whatever the row
      orders, the result is the matrix of sequential.cpp: upper cells hold
      the window-A recurrence and the lower triangle is never written. */
  method ParallelWavefront(M: array<real>, N: nat, fp: Fp, orders: nat -> seq<nat>)
    requires M.Length == N * N
    requires forall k :: 1 <= k < N ==> IsRowOrder(orders(k), N - k)
    modifies M
    ensures forall i: nat, j: nat :: i <= j < N ==> M[Idx(N, i, j)] == ValA(fp, Diagonal(old(M[..]), N), i, j)
    ensures forall i: nat, j: nat :: i < j < N ==> M[Idx(N, j, i)] == old(M[Idx(N, j, i)])
  {
    ghost var s0 := M[..];
    var k := 1;
    while k < N
      invariant 1 <= k && (N >= 1 ==> k <= N)
      invariant StageA(M[..], s0, N, fp, k, {})
    {
      ParallelDiagonalA(M, N, fp, k, orders(k), s0);
      k := k + 1;
    }
  }
}
