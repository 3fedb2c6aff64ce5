/** The two wavefront recurrences of the repository, as reference
    definitions over the seeded main diagonal, and the read windows the
    kernels take from the flat buffer.

    Window A (sequential.cpp, wf-parallel.cpp, wf-farm.cpp) pairs the upper
    cells M[m][m+j] and M[m+k-j][m+k]; window B (sequential_wf.cpp,
    ff_parallel_wf.cpp, ff_farm_wf.cpp, mpi_wf.cpp, and ff_parallel_wf_T.cpp
    through its transposed copy) pairs M[m][m+j] with the lower mirror cell
    M[m+k][m+j+1], which holds the upper value of (m+j+1, m+k).  The two
    recurrences are different and are kept apart. */
module Recurrence {
  import opened Kernel
  import opened Matrix

  /** Value of upper cell (i, j) under window B, from the seeded diagonal. */
  function ValB(fp: Fp, seed: seq<real>, i: nat, j: nat): real
    requires i <= j < |seed|
    decreases j - i, 1
  {
    if i == j then seed[i] else fp.cbrt(SumB(fp, seed, i, j, j - i))
  }

  /** Sum over t' < t of ValB(i, i+t') * ValB(i+t'+1, j). */
  function SumB(fp: Fp, seed: seq<real>, i: nat, j: nat, t: nat): real
    requires i < j < |seed| && t <= j - i
    decreases j - i, 0, t
  {
    if t == 0 then 0.0
    else fp.add(SumB(fp, seed, i, j, t - 1), fp.mul(ValB(fp, seed, i, i + t - 1), ValB(fp, seed, i + t, j)))
  }

  /** Value of upper cell (i, j) under window A, from the seeded diagonal. */
  function ValA(fp: Fp, seed: seq<real>, i: nat, j: nat): real
    requires i <= j < |seed|
    decreases j - i, 1
  {
    if i == j then seed[i] else fp.cbrt(SumA(fp, seed, i, j, j - i))
  }

  /** Sum over t' < t of ValA(i, i+t') * ValA(j-t', j). */
  function SumA(fp: Fp, seed: seq<real>, i: nat, j: nat, t: nat): real
    requires i < j < |seed| && t <= j - i
    decreases j - i, 0, t
  {
    if t == 0 then 0.0
    else fp.add(SumA(fp, seed, i, j, t - 1), fp.mul(ValA(fp, seed, i, i + t - 1), ValA(fp, seed, j - (t - 1), j)))
  }

  /** Distance of cell (r, c) from the main diagonal: the diagonal it lies
      on, in either triangle. */
  function Dist(r: nat, c: nat): nat
  {
    if r <= c then c - r else r - c
  }

  /** The row window M[m][m+j], j < k (both families). */
  function RowWindow(s: seq<real>, N: nat, m: nat, k: nat): (w: seq<real>)
    requires |s| == N * N && m + k < N
    ensures |w| == k
  {
    seq(k, j requires 0 <= j < k => s[Idx(N, m, m + j)])
  }

  /** Window A's column window M[m+k-j][m+k], j < k. */
  function ColumnWindow(s: seq<real>, N: nat, m: nat, k: nat): (w: seq<real>)
    requires |s| == N * N && m + k < N
    ensures |w| == k
  {
    seq(k, j requires 0 <= j < k => s[Idx(N, m + k - j, m + k)])
  }

  /** Window B's mirror window M[m+k][m+j+1], j < k. */
  function MirrorWindow(s: seq<real>, N: nat, m: nat, k: nat): (w: seq<real>)
    requires |s| == N * N && m + k < N
    ensures |w| == k
  {
    seq(k, j requires 0 <= j < k => s[Idx(N, m + k, m + j + 1)])
  }

  /** Two buffers that agree on every cell of diagonals below k, in both
      triangles. */
  ghost predicate SameBelow(s: seq<real>, s': seq<real>, N: nat, k: nat)
    requires |s| == N * N && |s'| == N * N
  {
    forall r: nat, c: nat :: r < N && c < N && Dist(r, c) < k ==> s[Idx(N, r, c)] == s'[Idx(N, r, c)]
  }

  /** No early read: the windows of step (k, m) depend only on cells of
      diagonals below k, so whatever has been written on diagonal k or later
      cannot change what the step reads. */
  lemma WindowsReadBelow(s: seq<real>, s': seq<real>, N: nat, m: nat, k: nat)
    requires |s| == N * N && |s'| == N * N && m + k < N
    requires SameBelow(s, s', N, k)
    ensures RowWindow(s, N, m, k) == RowWindow(s', N, m, k)
    ensures ColumnWindow(s, N, m, k) == ColumnWindow(s', N, m, k)
    ensures MirrorWindow(s, N, m, k) == MirrorWindow(s', N, m, k)
  {
    forall j | 0 <= j < k
      ensures RowWindow(s, N, m, k)[j] == RowWindow(s', N, m, k)[j]
      ensures ColumnWindow(s, N, m, k)[j] == ColumnWindow(s', N, m, k)[j]
      ensures MirrorWindow(s, N, m, k)[j] == MirrorWindow(s', N, m, k)[j]
    {
      assert Dist(m, m + j) < k && Dist(m + k - j, m + k) < k && Dist(m + k, m + j + 1) < k;
    }
  }

  /** Window B's barrier condition: every cell of the diagonals below k, and
      its lower mirror, holds its final value. */
  ghost predicate SolvedBelowB(s: seq<real>, N: nat, fp: Fp, seed: seq<real>, k: nat)
    requires |s| == N * N && |seed| == N
  {
    forall i: nat, j: nat :: i <= j < N && j - i < k ==>
      s[Idx(N, i, j)] == ValB(fp, seed, i, j) && s[Idx(N, j, i)] == ValB(fp, seed, i, j)
  }

  /** Window A's barrier condition: every upper cell of the diagonals below k
      holds its final value. */
  ghost predicate SolvedBelowA(s: seq<real>, N: nat, fp: Fp, seed: seq<real>, k: nat)
    requires |s| == N * N && |seed| == N
  {
    forall r: nat, c: nat :: r <= c < N && c - r < k ==> s[Idx(N, r, c)] == ValA(fp, seed, r, c)
  }

  /** The two windows of step (k, m) under the window-B barrier condition:
      the j-th pair is (m, m+j) and (m+j+1, m+k), both on diagonals below k. */
  lemma WindowsB(s: seq<real>, N: nat, fp: Fp, seed: seq<real>, k: nat, m: nat)
    requires |s| == N * N && |seed| == N && 1 <= k && m + k < N
    requires SolvedBelowB(s, N, fp, seed, k)
    ensures forall j :: 0 <= j < k ==> RowWindow(s, N, m, k)[j] == ValB(fp, seed, m, m + j)
    ensures forall j :: 0 <= j < k ==> MirrorWindow(s, N, m, k)[j] == ValB(fp, seed, m + j + 1, m + k)
  {
  }

  lemma {:induction false} DotIsSumB(fp: Fp, seed: seq<real>, v1: seq<real>, v2: seq<real>, k: nat, m: nat, t: nat)
    requires |seed| > m + k && 1 <= k && |v1| == k && |v2| == k && t <= k
    requires forall j :: 0 <= j < k ==> v1[j] == ValB(fp, seed, m, m + j) && v2[j] == ValB(fp, seed, m + j + 1, m + k)
    ensures Dot(fp, v1[..t], v2) == SumB(fp, seed, m, m + k, t)
  {
    if t > 0 {
      assert v1[..t][..t - 1] == v1[..t - 1];
      DotIsSumB(fp, seed, v1, v2, k, m, t - 1);
    }
  }

  /** Once the diagonals below k are final, step (k, m) of window B computes
      the final value of (m, m+k): the kernel's dot product over the two
      windows is the recurrence's sum. */
  lemma StepB(s: seq<real>, N: nat, fp: Fp, seed: seq<real>, k: nat, m: nat)
    requires |s| == N * N && |seed| == N && 1 <= k && m + k < N
    requires SolvedBelowB(s, N, fp, seed, k)
    ensures fp.cbrt(Dot(fp, RowWindow(s, N, m, k), MirrorWindow(s, N, m, k))) == ValB(fp, seed, m, m + k)
  {
    WindowsB(s, N, fp, seed, k, m);
    DotIsSumB(fp, seed, RowWindow(s, N, m, k), MirrorWindow(s, N, m, k), k, m, k);
    assert RowWindow(s, N, m, k)[..k] == RowWindow(s, N, m, k);
  }

  /** The two windows of step (k, m) under the window-A barrier condition:
      the j-th pair is (m, m+j) and (m+k-j, m+k), both on diagonal j. */
  lemma WindowsA(s: seq<real>, N: nat, fp: Fp, seed: seq<real>, k: nat, m: nat)
    requires |s| == N * N && |seed| == N && 1 <= k && m + k < N
    requires SolvedBelowA(s, N, fp, seed, k)
    ensures forall j :: 0 <= j < k ==> RowWindow(s, N, m, k)[j] == ValA(fp, seed, m, m + j)
    ensures forall j :: 0 <= j < k ==> ColumnWindow(s, N, m, k)[j] == ValA(fp, seed, m + k - j, m + k)
  {
  }

  lemma {:induction false} DotIsSumA(fp: Fp, seed: seq<real>, v1: seq<real>, v2: seq<real>, k: nat, m: nat, t: nat)
    requires |seed| > m + k && 1 <= k && |v1| == k && |v2| == k && t <= k
    requires forall j :: 0 <= j < k ==> v1[j] == ValA(fp, seed, m, m + j) && v2[j] == ValA(fp, seed, m + k - j, m + k)
    ensures Dot(fp, v1[..t], v2) == SumA(fp, seed, m, m + k, t)
  {
    if t > 0 {
      assert v1[..t][..t - 1] == v1[..t - 1];
      DotIsSumA(fp, seed, v1, v2, k, m, t - 1);
    }
  }

  /** Once the upper diagonals below k are final, step (k, m) of window A
      computes the final value of (m, m+k). */
  lemma StepA(s: seq<real>, N: nat, fp: Fp, seed: seq<real>, k: nat, m: nat)
    requires |s| == N * N && |seed| == N && 1 <= k && m + k < N
    requires SolvedBelowA(s, N, fp, seed, k)
    ensures fp.cbrt(Dot(fp, RowWindow(s, N, m, k), ColumnWindow(s, N, m, k))) == ValA(fp, seed, m, m + k)
  {
    WindowsA(s, N, fp, seed, k, m);
    DotIsSumA(fp, seed, RowWindow(s, N, m, k), ColumnWindow(s, N, m, k), k, m, k);
    assert RowWindow(s, N, m, k)[..k] == RowWindow(s, N, m, k);
  }
}
