/** src/wf-farm.cpp: window A on a FastFlow farm whose Emitter also receives
    the workers' feedback.  The Emitter's `svc` is a small state machine over
    k, feedback_count and diag_done: a start or a finished diagonal makes it
    dispatch, a returned task is counted.  As written, the call that counts
    the last task of a diagonal only records that the diagonal is done and
    returns GO_ON; nothing is in flight any more, so no later call comes and
    the farm stops after diagonal 1 (see FarmWavefrontAsWritten).  The
    corrected Emitter dispatches the next diagonal, or ends the stream, in
    that same call, and uses a chunk size of at least one row. */
module WfFarm {
  import opened Kernel
  import opened Matrix
  import opened Recurrence
  import opened Stage
  import opened Chunks
  import opened Sequential

  /** What `svc` returns to the runtime.  Diverges stands for a dispatch loop
      that never ends: with chunk_size = 0 the row index never advances. */
  datatype Reply = GoOn | Eos | Diverges

  /** How a farm run ends: every task back and EOS sent, stuck with nothing
      in flight and no EOS, or caught in a dispatch loop. */
  datatype Outcome = Finished | Stalled | Diverged

  class Emitter {
    const N: nat
    const nw: nat
    const chunkSize: nat
    var k: nat
    var feedbackCount: nat
    var diagDone: bool

    /** The Emitter as written: chunk_size = N / nw, which is 0 when there
        are more workers than rows. */
    constructor(N: nat, nw: nat)
      requires nw >= 1
      ensures this.N == N && this.nw == nw && k == 1 && feedbackCount == 0 && !diagDone
      ensures chunkSize == FloorChunkSize(N, nw)
      ensures chunkSize == 0 <==> nw > N
    {
      this.N := N;
      this.nw := nw;
      chunkSize := FloorChunkSize(N, nw);
      k := 1;
      feedbackCount := 0;
      diagDone := false;
      FloorChunkSizeZero(N, nw);
    }

    /** The corrected Emitter: chunk size ceil(N / nw), at least one row. */
    constructor Fixed(N: nat, nw: nat)
      requires N >= 1 && nw >= 1
      ensures this.N == N && this.nw == nw && k == 1 && feedbackCount == 0 && !diagDone
      ensures chunkSize == CeilChunkSize(N, nw) && chunkSize >= 1
    {
      this.N := N;
      this.nw := nw;
      chunkSize := CeilChunkSize(N, nw);
      k := 1;
      feedbackCount := 0;
      diagDone := false;
      CeilChunkSizeBounds(N, nw);
    }

    /** `svc` as written.  On the start (no task) or once diag_done is set:
        clear diag_done and send the chunks of diagonal k.  On a returned
        task: count its rows while the count is below N - k; when the count
        reaches N - k, reset it, advance k, set diag_done and return GO_ON at
        once.  Otherwise EOS exactly when k == N. */
    method Svc(task: Option<Task>) returns (tasks: seq<Task>, reply: Reply)
      requires k <= N
      modifies this
      ensures (task.None? || old(diagDone)) ==>
        && !diagDone && k == old(k) && feedbackCount == old(feedbackCount)
        && (if k == N then tasks == [] && reply == Eos
            else if chunkSize == 0 then tasks == [] && reply == Diverges
            else tasks == StaticChunks(k, N - k, chunkSize, 0) && reply == GoOn)
      ensures task.Some? && !old(diagDone) ==>
        var counted := if old(feedbackCount) < N - old(k) then old(feedbackCount) + task.value.size else old(feedbackCount);
        && tasks == []
        && (if counted == N - old(k) then feedbackCount == 0 && k == old(k) + 1 && diagDone && reply == GoOn
            else feedbackCount == counted && k == old(k) && !diagDone && (reply == Eos <==> k == N) && reply != Diverges)
    {
      tasks := [];
      if task.None? || diagDone {
        diagDone := false;
        if chunkSize == 0 && k < N {
          return [], Diverges;
        }
        if k < N {
          tasks := EmitChunks(k, N - k, chunkSize);
        }
      } else {
        if feedbackCount < N - k {
          feedbackCount := feedbackCount + task.value.size;
        }
        if feedbackCount == N - k {
          feedbackCount := 0;
          k := k + 1;
          diagDone := true;
          return [], GoOn;
        }
      }
      reply := if k == N then Eos else GoOn;
    }

    /** `svc` corrected: the call that counts the last task of a diagonal
        advances k and goes straight on to dispatch it (no chunks and EOS
        when k reaches N), instead of waiting for a call that never comes. */
    method SvcFixed(task: Option<Task>) returns (tasks: seq<Task>, reply: Reply)
      requires k <= N && chunkSize >= 1 && !diagDone && (task.Some? ==> k < N)
      modifies this
      ensures !diagDone && reply != Diverges && (reply == Eos <==> k == N)
      ensures task.None? ==> k == old(k) && feedbackCount == old(feedbackCount) && tasks == StaticChunks(k, N - k, chunkSize, 0)
      ensures task.Some? ==>
        var counted := if old(feedbackCount) < N - old(k) then old(feedbackCount) + task.value.size else old(feedbackCount);
        if counted == N - old(k) then feedbackCount == 0 && k == old(k) + 1 && tasks == StaticChunks(k, N - k, chunkSize, 0)
        else feedbackCount == counted && k == old(k) && tasks == []
    {
      tasks := [];
      if task.Some? {
        if feedbackCount < N - k {
          feedbackCount := feedbackCount + task.value.size;
        }
        if feedbackCount == N - k {
          feedbackCount := 0;
          k := k + 1;
          diagDone := true;
        }
      }
      if task.None? || diagDone {
        diagDone := false;
        tasks := EmitChunks(k, N - k, chunkSize);
      }
      reply := if k == N then Eos else GoOn;
    }
  }

  /** `Worker::svc`: scratch vectors v_m and v_mk of length k, then rows
      m = task.m .. end-1, end = min(N - k, task.m + size), of diagonal k,
      each by the window-A step (the Worker's own `dotProduct`, cube root
      included); the task goes back as feedback.  Only upper cells of
      diagonal k change, each to the kernel over the windows as they were
      when the task arrived. */
  method WorkerSvc(M: array<real>, N: nat, fp: Fp, task: Task) returns (feedback: Task, ghost rows: set<nat>)
    requires M.Length == N * N && 1 <= task.k < N
    modifies M
    ensures feedback == task
    ensures forall m: nat :: m in rows <==> task.m <= m < Min(N - task.k, task.m + task.size)
    ensures RowsStepA(old(M[..]), M[..], N, fp, task.k, task.m, Min(N - task.k, task.m + task.size))
  {
    var vm := new real[task.k];
    var vmk := new real[task.k];
    var end := Min(N - task.k, task.m + task.size);
    if task.m < end {
      TaskRowsA(M, N, fp, task.k, task.m, end, vm, vmk);
    }
    rows := RowRange(task.m, end);
    feedback := task;
  }

  /** The Worker's row loop: rows a .. b-1 of diagonal k, in order, with
      v_m and v_mk as scratch. */
  method TaskRowsA(M: array<real>, N: nat, fp: Fp, k: nat, a: nat, b: nat, vm: array<real>, vmk: array<real>)
    requires M.Length == N * N && 1 <= k && a <= b && b + k <= N
    requires vm.Length == k && vmk.Length == k
    requires vm != M && vmk != M && vm != vmk
    modifies M, vm, vmk
    ensures RowsStepA(old(M[..]), M[..], N, fp, k, a, b)
  {
    ghost var s := M[..];
    var m := a;
    while m < b
      invariant a <= m <= b
      invariant RowsStepA(s, M[..], N, fp, k, a, m)
    {
      ghost var s1 := M[..];
      RowStepA(M, N, fp, k, m, vm, vmk);
      AfterStepAIsRowsStep(s1, N, fp, k, m);
      RowsStepAExtend(s, s1, M[..], N, fp, k, a, m);
      m := m + 1;
    }
  }

  /** Diagonal e.k is under way: its tasks in flight and the rows already
      counted add up to its length, every row of it is computed or covered by
      a task in flight, and the matrix is at stage (e.k, done). */
  ghost predicate Running(M: array<real>, N: nat, fp: Fp, s0: seq<real>, e: Emitter, inflight: seq<Task>, done: set<nat>)
    reads M, e
  {
    && M.Length == N * N && |s0| == N * N
    && e.N == N && 1 <= e.k < N && !e.diagDone
    && (forall p :: 0 <= p < |inflight| ==>
          inflight[p].k == e.k && inflight[p].size >= 1 && inflight[p].m + inflight[p].size <= N - e.k)
    && e.feedbackCount + TotalSize(inflight) == N - e.k
    && e.feedbackCount < N - e.k
    && (forall r: nat :: r < N - e.k ==> r in done || Covered(inflight, r))
    && StageA(M[..], s0, N, fp, e.k, done)
  }

  /** A dispatch of diagonal e.k at its start: its chunks, all in flight,
      cover the diagonal and add up to its length. */
  lemma DispatchRunning(M: array<real>, N: nat, fp: Fp, s0: seq<real>, e: Emitter, tasks: seq<Task>)
    requires M.Length == N * N && |s0| == N * N && e.N == N && 1 <= e.k < N && !e.diagDone
    requires e.chunkSize >= 1 && e.feedbackCount == 0
    requires tasks == StaticChunks(e.k, N - e.k, e.chunkSize, 0)
    requires StageA(M[..], s0, N, fp, e.k, {})
    ensures Running(M, N, fp, s0, e, tasks, {})
  {
    StaticChunksTile(e.k, N - e.k, e.chunkSize);
  }

  /** A diagonal under way always has a task in flight: the rows counted so
      far fall short of its length. */
  lemma NothingInFlightIsNotRunning(M: array<real>, N: nat, fp: Fp, s0: seq<real>, e: Emitter, done: set<nat>)
    ensures !Running(M, N, fp, s0, e, [], done)
  {
  }

  /** A task of diagonal e.k taken out of flight and computed by a Worker:
      the matrix moves to stage (e.k, done'), and the rows still to be counted
      are those of the task and of the tasks left in flight. */
  method TakeAndCompute(M: array<real>, N: nat, fp: Fp, ghost s0: seq<real>, e: Emitter, inflight: seq<Task>, ghost done: set<nat>)
    returns (task: Task, rest: seq<Task>, ghost done': set<nat>)
    requires Running(M, N, fp, s0, e, inflight, done) && |inflight| > 0
    modifies M
    ensures M.Length == N * N
    ensures task.k == e.k && task.size >= 1 && task.m + task.size <= N - e.k
    ensures |rest| == |inflight| - 1
    ensures forall p :: 0 <= p < |rest| ==> rest[p].k == e.k && rest[p].size >= 1 && rest[p].m + rest[p].size <= N - e.k
    ensures e.feedbackCount + task.size + TotalSize(rest) == N - e.k
    ensures forall r: nat :: r < N - e.k ==> r in done' || Covered(rest, r)
    ensures StageA(M[..], s0, N, fp, e.k, done')
  {
    var p :| 0 <= p < |inflight|;
    task := inflight[p];
    ghost var s := M[..];
    rest := Remove(inflight, p);
    TotalSizeRemove(inflight, p);
    forall r: nat | r < N - e.k && Covered(inflight, r) && !Covers(task, r)
      ensures Covered(rest, r)
    {
      CoveredRemove(inflight, p, r);
    }
    var feedback, rows := WorkerSvc(M, N, fp, task);
    AdvanceRowsA(s, M[..], s0, N, fp, e.k, task.m, Min(N - e.k, task.m + task.size), done, rows);
    done' := done + rows;
  }

  /** One feedback message delivered to the Emitter as written, during
      diagonal 1: either diagonal 1 is still under way with one task fewer in
      flight, or its last task came back, and the Emitter, having answered
      GO_ON without a task, holds k = 2 with nothing in flight. */
  method DeliverAsWritten(M: array<real>, N: nat, fp: Fp, ghost s0: seq<real>, e: Emitter, inflight: seq<Task>, ghost done: set<nat>)
    returns (inflight': seq<Task>, ghost done': set<nat>)
    requires Running(M, N, fp, s0, e, inflight, done) && e.k == 1 && |inflight| > 0
    modifies M, e
    ensures (Running(M, N, fp, s0, e, inflight', done') && e.k == 1 && |inflight'| < |inflight|) ||
            (inflight' == [] && M.Length == N * N && e.k == 2 && e.diagDone && StageA(M[..], s0, N, fp, 2, {}))
  {
    var task, rest;
    task, rest, done' := TakeAndCompute(M, N, fp, s0, e, inflight, done);
    var tasks, reply := e.Svc(Some(task));
    assert tasks == [] && rest + tasks == rest;
    inflight' := rest;
    if e.diagDone {
      TotalSizeAtLeastCount(rest);
      NextDiagonalA(M[..], s0, N, fp, 1, done');
      done' := {};
    }
  }

  /** One feedback message delivered to the corrected Emitter: either
      diagonal k is still under way with one task fewer in flight, or its
      last task came back and the Emitter has sent diagonal k + 1 (or EOS,
      with nothing in flight, when k + 1 == N). */
  method DeliverFixed(M: array<real>, N: nat, fp: Fp, ghost s0: seq<real>, e: Emitter, inflight: seq<Task>, ghost done: set<nat>)
    returns (inflight': seq<Task>, reply: Reply, ghost done': set<nat>)
    requires Running(M, N, fp, s0, e, inflight, done) && e.chunkSize >= 1 && |inflight| > 0
    modifies M, e
    ensures e.chunkSize >= 1
    ensures (Running(M, N, fp, s0, e, inflight', done') && reply == GoOn) ||
            (inflight' == [] && M.Length == N * N && e.k == N && !e.diagDone && reply == Eos && StageA(M[..], s0, N, fp, N, {}))
    ensures e.k > old(e.k) || (e.k == old(e.k) && |inflight'| < |inflight|)
  {
    var task, rest;
    var k := e.k;
    task, rest, done' := TakeAndCompute(M, N, fp, s0, e, inflight, done);
    var tasks;
    tasks, reply := e.SvcFixed(Some(task));
    if e.k > k {
      TotalSizeAtLeastCount(rest);
      assert rest == [];
      NextDiagonalA(M[..], s0, N, fp, k, done');
      done' := {};
      if e.k < N {
        DispatchRunning(M, N, fp, s0, e, tasks);
      } else {
        assert tasks == [];
      }
      inflight' := tasks;
    } else {
      inflight' := rest;
    }
  }

  /** `farm_wavefront` as written, run one message at a time.  For N = 1 the
      first `svc` sends nothing and ends the stream.  For N >= 2 with more
      workers than rows the first dispatch never ends.  Otherwise the farm
      stalls: the last feedback of diagonal 1 is answered with GO_ON and no
      task, so the run stops with diagonal 1 computed, no EOS, and every
      later diagonal never started. */
  method FarmWavefrontAsWritten(M: array<real>, N: nat, nw: nat, fp: Fp) returns (outcome: Outcome)
    requires M.Length == N * N && N >= 1 && nw >= 1
    modifies M
    ensures N == 1 ==> outcome == Finished
    ensures N >= 2 && nw > N ==> outcome == Diverged
    ensures N >= 2 && nw <= N ==> outcome == Stalled
    ensures outcome == Stalled ==> forall i: nat, j: nat :: i <= j < N ==>
      M[Idx(N, i, j)] == if j - i < 2 then ValA(fp, Diagonal(old(M[..]), N), i, j) else old(M[Idx(N, i, j)])
    ensures outcome == Stalled ==> forall i: nat, j: nat :: i < j < N ==> M[Idx(N, j, i)] == old(M[Idx(N, j, i)])
    ensures outcome != Stalled ==> M[..] == old(M[..])
  {
    ghost var s0 := M[..];
    var e := new Emitter(N, nw);
    var inflight, reply := e.Svc(None);
    if reply != GoOn {
      return if reply == Eos then Finished else Diverged;
    }
    DispatchRunning(M, N, fp, s0, e, inflight);
    ghost var done: set<nat> := {};
    while |inflight| > 0
      invariant (Running(M, N, fp, s0, e, inflight, done) && e.k == 1) ||
                (inflight == [] && M.Length == N * N && e.k == 2 && e.diagDone && StageA(M[..], s0, N, fp, 2, {}))
      decreases |inflight|
    {
      inflight, done := DeliverAsWritten(M, N, fp, s0, e, inflight, done);
    }
    NothingInFlightIsNotRunning(M, N, fp, s0, e, done);
    outcome := Stalled;
  }

  /** `farm_wavefront` with the corrected Emitter: the run ends with EOS and
      every task back, and the matrix is the window-A matrix of
      sequential.cpp, for every N >= 1 and nw >= 1. */
  method FarmWavefrontFixed(M: array<real>, N: nat, nw: nat, fp: Fp) returns (outcome: Outcome)
    requires M.Length == N * N && N >= 1 && nw >= 1
    modifies M
    ensures outcome == Finished
    ensures forall i: nat, j: nat :: i <= j < N ==> M[Idx(N, i, j)] == ValA(fp, Diagonal(old(M[..]), N), i, j)
    ensures forall i: nat, j: nat :: i < j < N ==> M[Idx(N, j, i)] == old(M[Idx(N, j, i)])
  {
    ghost var s0 := M[..];
    var e := new Emitter.Fixed(N, nw);
    var inflight, reply := e.SvcFixed(None);
    if N >= 2 {
      DispatchRunning(M, N, fp, s0, e, inflight);
    }
    ghost var done: set<nat> := {};
    while |inflight| > 0
      invariant e.chunkSize >= 1
      invariant (Running(M, N, fp, s0, e, inflight, done) && reply == GoOn) ||
                (inflight == [] && M.Length == N * N && e.k == N && !e.diagDone && reply == Eos && StageA(M[..], s0, N, fp, N, {}))
      decreases N - e.k, |inflight|
    {
      inflight, reply, done := DeliverFixed(M, N, fp, s0, e, inflight, done);
    }
    NothingInFlightIsNotRunning(M, N, fp, s0, e, done);
    outcome := Finished;
  }

  /** A concrete stall: a 3 x 3 matrix and one worker. */
  method StallOnThreeByThree(fp: Fp) returns (outcome: Outcome)
    ensures outcome == Stalled
  {
    var M := new real[9];
    outcome := FarmWavefrontAsWritten(M, 3, 1, fp);
  }

  /** A concrete endless dispatch: a 2 x 2 matrix and three workers. */
  method DivergeOnTwoByTwo(fp: Fp) returns (outcome: Outcome)
    ensures outcome == Diverged
  {
    var M := new real[4];
    outcome := FarmWavefrontAsWritten(M, 2, 3, fp);
  }
}
