/** src/ff_farm_wf.cpp: window B on a FastFlow farm with feedback.  The
    Emitter sends the chunks of one diagonal to the workers; each Worker
    computes its rows and returns its task; the Collector adds up the rows
    returned and, once the whole diagonal is back, signals the Emitter, which
    sends the next diagonal.  The runtime's queues become a sequence of
    in-flight tasks from which any one may be delivered next. */
module FfFarmWf {
  import opened Kernel
  import opened Matrix
  import opened Recurrence
  import opened Stage
  import opened Chunks
  import opened SequentialWf

  class Emitter {
    const N: nat
    const nw: nat
    const chunkSize: nat
    var k: nat

    /** Starts at diagonal 1 with the rounded-up chunk size ceil(N / nw),
        which is at least one row. */
    constructor(N: nat, nw: nat)
      requires N >= 1 && nw >= 1
      ensures this.N == N && this.nw == nw && k == 1
      ensures chunkSize == CeilChunkSize(N, nw) && chunkSize >= 1
    {
      this.N := N;
      this.nw := nw;
      chunkSize := CeilChunkSize(N, nw);
      k := 1;
      CeilChunkSizeBounds(N, nw);
    }

    /** `svc`, on the start or on a done signal (the signal carries no
        information): send the chunks of diagonal k, move to k + 1, and end
        the stream exactly when the new k is N. */
    method Svc() returns (tasks: seq<Task>, eos: bool)
      requires chunkSize >= 1 && k <= N
      modifies this
      ensures tasks == StaticChunks(old(k), N - old(k), chunkSize, 0)
      ensures k == old(k) + 1
      ensures eos <==> k == N
    {
      tasks := EmitChunks(k, N - k, chunkSize);
      k := k + 1;
      eos := k == N;
    }

    /** `svc` with the end test corrected to k >= N: the stream ends once no
        diagonal is left, which for N = 1 is already after the first call. */
    method SvcFixed() returns (tasks: seq<Task>, eos: bool)
      requires chunkSize >= 1 && k <= N
      modifies this
      ensures tasks == StaticChunks(old(k), N - old(k), chunkSize, 0)
      ensures k == old(k) + 1
      ensures eos <==> k >= N
    {
      tasks := EmitChunks(k, N - k, chunkSize);
      k := k + 1;
      eos := k >= N;
    }
  }

  class Collector {
    const N: nat
    var k: nat
    var feedbackCount: nat

    constructor(N: nat)
      ensures this.N == N && k == 1 && feedbackCount == 0
    {
      this.N := N;
      k := 1;
      feedbackCount := 0;
    }

    /** `svc`: no task changes nothing.  A returned task adds its size to the
        count; when the count reaches the length N - k of the current
        diagonal it is reset, k advances and one done signal is sent. */
    method Svc(task: Option<Task>) returns (done: bool)
      modifies this
      ensures task.None? ==> !done && k == old(k) && feedbackCount == old(feedbackCount)
      ensures task.Some? ==> (done <==> old(feedbackCount) + task.value.size == N - old(k))
      ensures done ==> k == old(k) + 1 && feedbackCount == 0
      ensures task.Some? && !done ==> k == old(k) && feedbackCount == old(feedbackCount) + task.value.size
    {
      done := false;
      if task.Some? {
        feedbackCount := feedbackCount + task.value.size;
        if feedbackCount == N - k {
          feedbackCount := 0;
          k := k + 1;
          done := true;
        }
      }
    }
  }

  /** `Worker::svc`: rows m = task.m .. end-1, end = min(N - k, task.m + size),
      of diagonal k, each by the window-B step, then the task itself goes
      back as feedback.  Rows never run past the end of the diagonal.  Each
      computed cell and its mirror hold the kernel over the windows as they
      were when the task arrived (rows of one task do not read each other),
      and no other cell changes.  `rows` is the set of rows computed. */
  method WorkerSvc(M: array<real>, N: nat, fp: Fp, task: Task) returns (feedback: Task, ghost rows: set<nat>)
    requires M.Length == N * N && 1 <= task.k < N
    modifies M
    ensures feedback == task
    ensures forall m: nat :: m in rows <==> task.m <= m < Min(N - task.k, task.m + task.size)
    ensures RowsStepB(old(M[..]), M[..], N, fp, task.k, task.m, Min(N - task.k, task.m + task.size))
  {
    var end := Min(N - task.k, task.m + task.size);
    if task.m < end {
      TaskRowsB(M, N, fp, task.k, task.m, end);
    }
    rows := RowRange(task.m, end);
    feedback := task;
  }

  /** The Worker's row loop: rows a .. b-1 of diagonal k, in order. */
  method TaskRowsB(M: array<real>, N: nat, fp: Fp, k: nat, a: nat, b: nat)
    requires M.Length == N * N && 1 <= k && a <= b && b + k <= N
    modifies M
    ensures RowsStepB(old(M[..]), M[..], N, fp, k, a, b)
  {
    ghost var s := M[..];
    var m := a;
    while m < b
      invariant a <= m <= b
      invariant RowsStepB(s, M[..], N, fp, k, a, m)
    {
      ghost var s1 := M[..];
      RowStepB(M, N, fp, k, m);
      AfterStepBIsRowsStep(s1, N, fp, k, m);
      RowsStepBExtend(s, s1, M[..], N, fp, k, a, m);
      m := m + 1;
    }
  }

  /** The state of a farm run between two deliveries.  The Collector is on
      diagonal c.k and the Emitter has already moved past it; the in-flight
      tasks all belong to diagonal c.k and, with the rows already counted,
      add up to its length; every row of it is either computed or covered by
      a task in flight; the matrix is at stage (c.k, done). */
  ghost predicate Running(M: array<real>, N: nat, fp: Fp, s0: seq<real>, e: Emitter, c: Collector,
                          inflight: seq<Task>, eos: bool, done: set<nat>)
    reads M, e, c
  {
    && M.Length == N * N && |s0| == N * N
    && e.N == N && c.N == N && e.chunkSize >= 1
    && 1 <= c.k <= N
    && (c.k < N ==> e.k == c.k + 1)
    && (c.k == N ==> inflight == [] && eos)
    && (eos <==> e.k == N)
    && e.k <= N
    && (forall p :: 0 <= p < |inflight| ==>
          inflight[p].k == c.k && inflight[p].size >= 1 && inflight[p].m + inflight[p].size <= N - c.k)
    && c.feedbackCount + TotalSize(inflight) == N - c.k
    && (c.k < N ==> c.feedbackCount < N - c.k)
    && (forall r: nat :: r < N - c.k ==> r in done || Covered(inflight, r))
    && StageB(M[..], s0, N, fp, c.k, done)
  }

  /** The Emitter has just sent diagonal c.k, with nothing of it counted
      yet: its chunks, all in flight, cover it and add up to its length. */
  lemma DispatchRunning(M: array<real>, N: nat, fp: Fp, s0: seq<real>, e: Emitter, c: Collector, tasks: seq<Task>, eos: bool)
    requires M.Length == N * N && |s0| == N * N && e.N == N && c.N == N && e.chunkSize >= 1
    requires 1 <= c.k < N && e.k == c.k + 1 && c.feedbackCount == 0 && (eos <==> e.k == N)
    requires tasks == StaticChunks(c.k, N - c.k, e.chunkSize, 0)
    requires StageB(M[..], s0, N, fp, c.k, {})
    ensures Running(M, N, fp, s0, e, c, tasks, eos, {})
  {
    StaticChunksTile(c.k, N - c.k, e.chunkSize);
  }

  /** With nothing in flight the Collector has seen every diagonal. */
  lemma NothingInFlightIsFinished(M: array<real>, N: nat, fp: Fp, s0: seq<real>, e: Emitter, c: Collector, eos: bool, done: set<nat>)
    requires Running(M, N, fp, s0, e, c, [], eos, done)
    ensures c.k == N
  {
  }

  /** Some in-flight task of diagonal c.k taken out of flight and computed
      by a Worker: the matrix moves to stage (c.k, done'), and the rows still
      to be counted are those of the task and of the tasks left in flight. */
  method TakeAndCompute(M: array<real>, N: nat, fp: Fp, ghost s0: seq<real>, e: Emitter, c: Collector,
                        inflight: seq<Task>, eos: bool, ghost done: set<nat>)
    returns (task: Task, rest: seq<Task>, ghost done': set<nat>)
    requires Running(M, N, fp, s0, e, c, inflight, eos, done) && |inflight| > 0
    modifies M
    ensures M.Length == N * N && c.k < N
    ensures task.k == c.k && task.size >= 1 && task.m + task.size <= N - c.k
    ensures |rest| == |inflight| - 1
    ensures forall p :: 0 <= p < |rest| ==> rest[p].k == c.k && rest[p].size >= 1 && rest[p].m + rest[p].size <= N - c.k
    ensures c.feedbackCount + task.size + TotalSize(rest) == N - c.k
    ensures forall r: nat :: r < N - c.k ==> r in done' || Covered(rest, r)
    ensures StageB(M[..], s0, N, fp, c.k, done')
  {
    var p :| 0 <= p < |inflight|;
    task := inflight[p];
    ghost var s := M[..];
    rest := Remove(inflight, p);
    TotalSizeRemove(inflight, p);
    forall r: nat | r < N - c.k && Covered(inflight, r) && !Covers(task, r)
      ensures Covered(rest, r)
    {
      CoveredRemove(inflight, p, r);
    }
    var feedback, rows := WorkerSvc(M, N, fp, task);
    AdvanceRowsB(s, M[..], s0, N, fp, c.k, task.m, Min(N - c.k, task.m + task.size), done, rows);
    done' := done + rows;
  }

  /** One delivery: some in-flight task goes to a Worker, its feedback to
      the Collector, and a done signal, if any, to the Emitter unless it has
      already ended the stream.  The Collector moves to the next diagonal or
      one task fewer is in flight. */
  method Deliver(M: array<real>, N: nat, fp: Fp, ghost s0: seq<real>, e: Emitter, c: Collector,
                 inflight: seq<Task>, eos: bool, ghost done: set<nat>)
    returns (inflight': seq<Task>, eos': bool, ghost done': set<nat>)
    requires Running(M, N, fp, s0, e, c, inflight, eos, done) && |inflight| > 0
    modifies M, e, c
    ensures Running(M, N, fp, s0, e, c, inflight', eos', done')
    ensures c.k > old(c.k) || (c.k == old(c.k) && |inflight'| < |inflight|)
  {
    ghost var ck := c.k;
    var task;
    task, inflight', done' := TakeAndCompute(M, N, fp, s0, e, c, inflight, eos, done);
    eos' := eos;
    var signal := c.Svc(Some(task));
    if signal {
      TotalSizeAtLeastCount(inflight');
      NextDiagonalB(M[..], s0, N, fp, ck, done');
      done' := {};
      if !eos {
        inflight', eos' := e.Svc();
        DispatchRunning(M, N, fp, s0, e, c, inflight', eos');
      }
    }
  }

  /** `farm_wavefront` with the farm run to completion, one message at a
      time: the Emitter's first `svc`, then deliveries until nothing is in
      flight.  For N >= 2 the run ends (the Emitter has sent EOS and every
      task is back) with the window-B matrix of sequential_wf.cpp, and the
      lower triangle is then cleared.  For N = 1 the Emitter sends nothing,
      moves to k = 2, never sends EOS and receives no signal: the farm never
      ends, `finished` is false and M is as on entry. */
  method FarmWavefront(M: array<real>, N: nat, nw: nat, fp: Fp) returns (finished: bool)
    requires M.Length == N * N && N >= 1 && nw >= 1
    modifies M
    ensures finished <==> N >= 2
    ensures finished ==> forall i: nat, j: nat :: i <= j < N ==> M[Idx(N, i, j)] == ValB(fp, Diagonal(old(M[..]), N), i, j)
    ensures finished ==> forall i: nat, j: nat :: i < j < N ==> M[Idx(N, j, i)] == 0.0
    ensures !finished ==> M[..] == old(M[..])
  {
    ghost var s0 := M[..];
    var emitter := new Emitter(N, nw);
    var collector := new Collector(N);
    var inflight, eos := emitter.Svc();
    if |inflight| == 0 && !eos {
      // Nothing is in flight and the Emitter waits for a signal nobody sends.
      return false;
    }
    DispatchRunning(M, N, fp, s0, emitter, collector, inflight, eos);
    ghost var done: set<nat> := {};
    while |inflight| > 0
      invariant Running(M, N, fp, s0, emitter, collector, inflight, eos, done)
      decreases N - collector.k, |inflight|
    {
      inflight, eos, done := Deliver(M, N, fp, s0, emitter, collector, inflight, eos, done);
    }
    NothingInFlightIsFinished(M, N, fp, s0, emitter, collector, eos, done);
    ClearLowerTriangle(M, N);
    finished := true;
  }

  /** `farm_wavefront` with the Emitter's first `svc` ending the stream by
      the corrected test k >= N.  The run now ends for every N >= 1 with the
      window-B matrix and a cleared lower triangle; for N = 1 nothing is in
      flight and EOS is sent at once.  Later calls of `svc` happen only while
      k < N, where both tests agree. */
  method FarmWavefrontFixed(M: array<real>, N: nat, nw: nat, fp: Fp)
    requires M.Length == N * N && N >= 1 && nw >= 1
    modifies M
    ensures forall i: nat, j: nat :: i <= j < N ==> M[Idx(N, i, j)] == ValB(fp, Diagonal(old(M[..]), N), i, j)
    ensures forall i: nat, j: nat :: i < j < N ==> M[Idx(N, j, i)] == 0.0
  {
    ghost var s0 := M[..];
    var emitter := new Emitter(N, nw);
    var collector := new Collector(N);
    var inflight, eos := emitter.SvcFixed();
    if N >= 2 {
      DispatchRunning(M, N, fp, s0, emitter, collector, inflight, eos);
    }
    ghost var done: set<nat> := {};
    while |inflight| > 0
      invariant Running(M, N, fp, s0, emitter, collector, inflight, eos, done) || (N == 1 && inflight == [] && M[..] == s0)
      decreases N - collector.k, |inflight|
    {
      inflight, eos, done := Deliver(M, N, fp, s0, emitter, collector, inflight, eos, done);
    }
    if N >= 2 {
      NothingInFlightIsFinished(M, N, fp, s0, emitter, collector, eos, done);
    }
    ClearLowerTriangle(M, N);
  }
}
