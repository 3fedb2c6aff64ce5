/** src/ff_parallel_wf.cpp: window B with the rows of each diagonal handed to
    a FastFlow parallel_for.  The runtime runs the body once for every row of
    [0, N-k) in an order of its choosing and returns when all are done; that
    order is a parameter of the model, so every result below holds whatever
    order the runtime picks. */
module FfParallelWf {
  import opened Kernel
  import opened Matrix
  import opened Recurrence
  import opened Stage
  import opened SequentialWf
  import opened Order

  /** The `parallel_for` of diagonal k: the body (RowStepB, each call with its
      own accumulator) for the rows in the runtime's order.  Because distinct
      rows write distinct cells and no row reads diagonal k, it takes the
      buffer from the start of diagonal k to the start of diagonal k + 1, the
      same state the in-order loop of sequential_wf.cpp reaches. */
  method ParallelDiagonalB(M: array<real>, N: nat, fp: Fp, k: nat, order: seq<nat>, ghost s0: seq<real>)
    requires M.Length == N * N && |s0| == N * N && 1 <= k < N
    requires IsRowOrder(order, N - k)
    requires StageB(M[..], s0, N, fp, k, {})
    modifies M
    ensures StageB(M[..], s0, N, fp, k + 1, {})
  {
    var p := 0;
    ghost var done: set<nat> := {};
    while p < |order|
      invariant 0 <= p <= |order|
      invariant forall m: nat :: m in done <==> m in order[..p]
      invariant StageB(M[..], s0, N, fp, k, done)
    {
      var m := order[p];
      assert m in order;
      ghost var s := M[..];
      RowStepB(M, N, fp, k, m);
      AfterStepBIsRowsStep(s, N, fp, k, m);
      AdvanceRowsB(s, M[..], s0, N, fp, k, m, m + 1, done, {m});
      done := done + {m};
      assert order[..p + 1] == order[..p] + [m];
      p := p + 1;
    }
    assert order[..p] == order;
    NextDiagonalB(M[..], s0, N, fp, k, done);
  }

  /** `parallelwavefront` of ff_parallel_wf.cpp: diagonal k + 1 starts only
      once parallel_for has finished diagonal k; then the lower triangle is
      cleared.  `orders(k)` is the runtime's row order for diagonal k.  The
      result is the window-B matrix of sequential_wf.cpp, whatever the
      orders. */
  method ParallelWavefront(M: array<real>, N: nat, fp: Fp, orders: nat -> seq<nat>)
    requires M.Length == N * N
    requires forall k :: 1 <= k < N ==> IsRowOrder(orders(k), N - k)
    modifies M
    ensures forall i: nat, j: nat :: i <= j < N ==> M[Idx(N, i, j)] == ValB(fp, Diagonal(old(M[..]), N), i, j)
    ensures forall i: nat, j: nat :: i < j < N ==> M[Idx(N, j, i)] == 0.0
  {
    ghost var s0 := M[..];
    var k := 1;
    while k < N
      invariant 1 <= k && (N >= 1 ==> k <= N)
      invariant StageB(M[..], s0, N, fp, k, {})
    {
      ParallelDiagonalB(M, N, fp, k, orders(k), s0);
      k := k + 1;
    }
    ClearLowerTriangle(M, N);
  }
}
