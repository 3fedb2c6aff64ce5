/** The state of the buffer part-way through a wavefront run, shared by every
    variant: which upper cells have been computed (all diagonals below k, and
    a set of rows of diagonal k), and what every other cell still holds.
    A variant proves its loops keep one of these predicates; the lemmas here
    take it across one step, across a diagonal boundary and to the end. */
module Stage {
  import opened Kernel
  import opened Matrix
  import opened Recurrence

  /** Upper cell (i, j) has been computed once diagonals below k and rows
      `done` of diagonal k are finished. */
  predicate Done(k: nat, done: set<nat>, i: nat, j: nat)
  {
    j - i < k || (j - i == k && i in done)
  }

  /** Window B, with mirror writes: computed cells and their mirrors hold the
      recurrence, all other cells their initial value. */
  ghost predicate StageB(s: seq<real>, s0: seq<real>, N: nat, fp: Fp, k: nat, done: set<nat>)
    requires |s| == N * N && |s0| == N * N
  {
    && (forall i: nat, j: nat :: i <= j < N ==>
          s[Idx(N, i, j)] == if Done(k, done, i, j) then ValB(fp, Diagonal(s0, N), i, j) else s0[Idx(N, i, j)])
    && (forall i: nat, j: nat :: i <= j < N ==>
          s[Idx(N, j, i)] == if Done(k, done, i, j) then ValB(fp, Diagonal(s0, N), i, j) else s0[Idx(N, j, i)])
  }

  /** Window A, upper writes only: computed upper cells hold the recurrence,
      every other cell, the whole lower triangle included, its initial value. */
  ghost predicate StageA(s: seq<real>, s0: seq<real>, N: nat, fp: Fp, k: nat, done: set<nat>)
    requires |s| == N * N && |s0| == N * N
  {
    && (forall i: nat, j: nat :: i <= j < N ==>
          s[Idx(N, i, j)] == if Done(k, done, i, j) then ValA(fp, Diagonal(s0, N), i, j) else s0[Idx(N, i, j)])
    && (forall i: nat, j: nat :: i < j < N ==> s[Idx(N, j, i)] == s0[Idx(N, j, i)])
  }

  /** The barrier of window B: while diagonal k is under way, every diagonal
      below it, mirror included, is final. */
  lemma BarrierB(s: seq<real>, s0: seq<real>, N: nat, fp: Fp, k: nat, done: set<nat>)
    requires |s| == N * N && |s0| == N * N && 1 <= k
    requires StageB(s, s0, N, fp, k, done)
    ensures SolvedBelowB(s, N, fp, Diagonal(s0, N), k)
  {
  }

  /** The barrier of window A. */
  lemma BarrierA(s: seq<real>, s0: seq<real>, N: nat, fp: Fp, k: nat, done: set<nat>)
    requires |s| == N * N && |s0| == N * N && 1 <= k
    requires StageA(s, s0, N, fp, k, done)
    ensures SolvedBelowA(s, N, fp, Diagonal(s0, N), k)
  {
  }

  /** Once every row of diagonal k is done, diagonal k + 1 starts. */
  lemma NextDiagonalB(s: seq<real>, s0: seq<real>, N: nat, fp: Fp, k: nat, done: set<nat>)
    requires |s| == N * N && |s0| == N * N && k < N
    requires forall m: nat :: m < N - k ==> m in done
    requires StageB(s, s0, N, fp, k, done)
    ensures StageB(s, s0, N, fp, k + 1, {})
  {
  }

  lemma NextDiagonalA(s: seq<real>, s0: seq<real>, N: nat, fp: Fp, k: nat, done: set<nat>)
    requires |s| == N * N && |s0| == N * N && k < N
    requires forall m: nat :: m < N - k ==> m in done
    requires StageA(s, s0, N, fp, k, done)
    ensures StageA(s, s0, N, fp, k + 1, {})
  {
  }

  /** s' is s after the window-B steps of rows a .. b-1 of diagonal k, run
      one after the other: each row's cell and its mirror hold the kernel
      over the windows of s, the state before the first of them, and no
      other cell differs. */
  ghost predicate RowsStepB(s: seq<real>, s': seq<real>, N: nat, fp: Fp, k: nat, a: nat, b: nat)
    requires |s| == N * N && |s'| == N * N && b + k <= N
  {
    && (forall m: nat :: a <= m < b ==>
          s'[Idx(N, m + k, m)] == fp.cbrt(Dot(fp, RowWindow(s, N, m, k), MirrorWindow(s, N, m, k))) &&
          s'[Idx(N, m, m + k)] == s'[Idx(N, m + k, m)])
    && (forall r: nat, c: nat :: r < N && c < N && !(c + k == r && a <= c < b) && !(r + k == c && a <= r < b) ==>
          s'[Idx(N, r, c)] == s[Idx(N, r, c)])
  }

  /** s' is s after the window-A steps of rows a .. b-1 of diagonal k: each
      row's upper cell holds the kernel over the windows of s, and no other
      cell differs. */
  ghost predicate RowsStepA(s: seq<real>, s': seq<real>, N: nat, fp: Fp, k: nat, a: nat, b: nat)
    requires |s| == N * N && |s'| == N * N && b + k <= N
  {
    && (forall m: nat :: a <= m < b ==>
          s'[Idx(N, m, m + k)] == fp.cbrt(Dot(fp, RowWindow(s, N, m, k), ColumnWindow(s, N, m, k))))
    && (forall r: nat, c: nat :: r < N && c < N && !(r + k == c && a <= r < b) ==> s'[Idx(N, r, c)] == s[Idx(N, r, c)])
  }

  /** The buffer after step (k, m) of window B on s: the kernel over the
      windows of s stored in (m+k, m) and in its mirror (m, m+k). */
  function AfterStepB(s: seq<real>, N: nat, fp: Fp, k: nat, m: nat): seq<real>
    requires |s| == N * N && m + k < N
  {
    var v := fp.cbrt(Dot(fp, RowWindow(s, N, m, k), MirrorWindow(s, N, m, k)));
    s[Idx(N, m + k, m) := v][Idx(N, m, m + k) := v]
  }

  /** The buffer after step (k, m) of window A on s: the kernel over the
      windows of s stored in the upper cell (m, m+k) only. */
  function AfterStepA(s: seq<real>, N: nat, fp: Fp, k: nat, m: nat): seq<real>
    requires |s| == N * N && m + k < N
  {
    s[Idx(N, m, m + k) := fp.cbrt(Dot(fp, RowWindow(s, N, m, k), ColumnWindow(s, N, m, k)))]
  }

  /** A single window-B step is the run of rows [m, m + 1): it sets the cell
      and its mirror, both to the same value, and leaves every other cell,
      of either triangle, as it was. */
  lemma AfterStepBIsRowsStep(s: seq<real>, N: nat, fp: Fp, k: nat, m: nat)
    requires |s| == N * N && 1 <= k && m + k < N
    ensures |AfterStepB(s, N, fp, k, m)| == N * N
    ensures RowsStepB(s, AfterStepB(s, N, fp, k, m), N, fp, k, m, m + 1)
  {
    Layout(N);
  }

  /** A single window-A step is the run of rows [m, m + 1). */
  lemma AfterStepAIsRowsStep(s: seq<real>, N: nat, fp: Fp, k: nat, m: nat)
    requires |s| == N * N && 1 <= k && m + k < N
    ensures |AfterStepA(s, N, fp, k, m)| == N * N
    ensures RowsStepA(s, AfterStepA(s, N, fp, k, m), N, fp, k, m, m + 1)
  {
    Layout(N);
  }

  /** One more window-B row: since rows of one diagonal read only lower
      diagonals, the step on row b sees the same windows as it would have
      before rows a .. b-1 ran. */
  lemma RowsStepBExtend(s: seq<real>, s1: seq<real>, s2: seq<real>, N: nat, fp: Fp, k: nat, a: nat, b: nat)
    requires |s| == N * N && |s1| == N * N && |s2| == N * N && 1 <= k && b + k < N
    requires a <= b && RowsStepB(s, s1, N, fp, k, a, b)
    requires RowsStepB(s1, s2, N, fp, k, b, b + 1)
    ensures RowsStepB(s, s2, N, fp, k, a, b + 1)
  {
    assert SameBelow(s1, s, N, k);
    WindowsReadBelow(s1, s, N, b, k);
  }

  /** One more window-A row. */
  lemma RowsStepAExtend(s: seq<real>, s1: seq<real>, s2: seq<real>, N: nat, fp: Fp, k: nat, a: nat, b: nat)
    requires |s| == N * N && |s1| == N * N && |s2| == N * N && 1 <= k && b + k < N
    requires a <= b && RowsStepA(s, s1, N, fp, k, a, b)
    requires RowsStepA(s1, s2, N, fp, k, b, b + 1)
    ensures RowsStepA(s, s2, N, fp, k, a, b + 1)
  {
    assert SameBelow(s1, s, N, k);
    WindowsReadBelow(s1, s, N, b, k);
  }

  /** The set of rows a .. b-1 of a diagonal. */
  lemma {:induction false} RowRange(a: nat, b: nat) returns (rows: set<nat>)
    ensures forall m: nat :: m in rows <==> a <= m < b
    decreases b - a
  {
    if a >= b {
      rows := {};
    } else {
      rows := RowRange(a + 1, b);
      rows := rows + {a};
    }
  }

  /** A farm task's rows a .. b-1 of diagonal k, computed from a state at
      stage (k, done), add those rows to `done`. */
  lemma AdvanceRowsB(s: seq<real>, s': seq<real>, s0: seq<real>, N: nat, fp: Fp, k: nat, a: nat, b: nat, done: set<nat>, rows: set<nat>)
    requires |s| == N * N && |s'| == N * N && |s0| == N * N && 1 <= k && b + k <= N
    requires StageB(s, s0, N, fp, k, done)
    requires RowsStepB(s, s', N, fp, k, a, b)
    requires forall m: nat :: m in rows <==> a <= m < b
    ensures StageB(s', s0, N, fp, k, done + rows)
  {
    BarrierB(s, s0, N, fp, k, done);
    var seed := Diagonal(s0, N);
    forall i: nat, j: nat | i <= j < N
      ensures s'[Idx(N, i, j)] == if Done(k, done + rows, i, j) then ValB(fp, seed, i, j) else s0[Idx(N, i, j)]
      ensures s'[Idx(N, j, i)] == if Done(k, done + rows, i, j) then ValB(fp, seed, i, j) else s0[Idx(N, j, i)]
    {
      if j - i == k && a <= i < b {
        StepB(s, N, fp, seed, k, i);
      }
    }
  }

  /** The window-A counterpart of AdvanceRowsB. */
  lemma AdvanceRowsA(s: seq<real>, s': seq<real>, s0: seq<real>, N: nat, fp: Fp, k: nat, a: nat, b: nat, done: set<nat>, rows: set<nat>)
    requires |s| == N * N && |s'| == N * N && |s0| == N * N && 1 <= k && b + k <= N
    requires StageA(s, s0, N, fp, k, done)
    requires RowsStepA(s, s', N, fp, k, a, b)
    requires forall m: nat :: m in rows <==> a <= m < b
    ensures StageA(s', s0, N, fp, k, done + rows)
  {
    BarrierA(s, s0, N, fp, k, done);
    var seed := Diagonal(s0, N);
    forall i: nat, j: nat | i <= j < N
      ensures s'[Idx(N, i, j)] == if Done(k, done + rows, i, j) then ValA(fp, seed, i, j) else s0[Idx(N, i, j)]
    {
      if j - i == k && a <= i < b {
        StepA(s, N, fp, seed, k, i);
      }
    }
  }
}
