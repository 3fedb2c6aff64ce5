/** src/mpi_wf.cpp: window B over MPI.  Every rank holds a copy of the
    matrix; per diagonal k each rank computes a contiguous block of rows,
    the root gathers the blocks in rank order, broadcasts the diagonal, and
    every rank installs it in both triangles.  The ranks run the same code
    on the same data, so one copy of the matrix stands for all of them;
    MPI_Gatherv is a placement of each rank's results at its displacement
    and MPI_Bcast a copy. */
module MpiWf {
  import opened Kernel
  import opened Matrix
  import opened Recurrence
  import opened Stage
  import opened Chunks

  /** `rows_per_process = (N - k) / size` for a diagonal of n = N - k rows. */
  function RowsPerProcess(n: nat, size: nat): nat
    requires size >= 1
  {
    n / size
  }

  /** `remaining_rows = (N - k) % size`. */
  function RemainingRows(n: nat, size: nat): nat
    requires size >= 1
  {
    n % size
  }

  /** `start_row` of rank r. */
  function StartRow(n: nat, size: nat, r: nat): nat
    requires size >= 1
  {
    r * RowsPerProcess(n, size) + Min(r, RemainingRows(n, size))
  }

  /** `end_row` of rank r: one extra row for the first `remaining_rows` ranks. */
  function EndRow(n: nat, size: nat, r: nat): nat
    requires size >= 1
  {
    StartRow(n, size, r) + RowsPerProcess(n, size) + (if r < RemainingRows(n, size) then 1 else 0)
  }

  /** Each rank's block is as long as the rank-0 formula of the root's
      `recv_counts` says: one row more than the quotient for the first
      `remaining_rows` ranks, the quotient for the others, so block sizes
      differ by at most one. */
  lemma PartitionBalanced(n: nat, size: nat, r: nat)
    requires size >= 1
    ensures EndRow(n, size, r) - StartRow(n, size, r) == n / size + (if r < n % size then 1 else 0)
    ensures n / size <= EndRow(n, size, r) - StartRow(n, size, r) <= n / size + 1
  {
  }

  /** Consecutive ranks' blocks are adjacent: rank r ends where rank r + 1
      starts. */
  lemma PartitionAdjacent(n: nat, size: nat, r: nat)
    requires size >= 1
    ensures EndRow(n, size, r) == StartRow(n, size, r + 1)
  {
    var q := RowsPerProcess(n, size);
    assert (r + 1) * q == r * q + q;
  }

  /** The blocks tile [0, n): rank 0 starts at row 0, the last rank ends at
      row n, and rank i's block ends no later than rank j's starts whenever
      i < j. */
  lemma {:induction false} PartitionTiles(n: nat, size: nat)
    requires size >= 1
    ensures StartRow(n, size, 0) == 0
    ensures EndRow(n, size, size - 1) == n
    ensures forall i, j :: 0 <= i < j ==> EndRow(n, size, i) <= StartRow(n, size, j)
    ensures forall r :: 0 <= r < size ==> StartRow(n, size, r) <= EndRow(n, size, r) <= n
  {
    var q := RowsPerProcess(n, size);
    var rem := RemainingRows(n, size);
    assert n == size * q + rem;
    PartitionAdjacent(n, size, size - 1);
    assert StartRow(n, size, size) == size * q + rem;
    forall i, j | 0 <= i < j
      ensures EndRow(n, size, i) <= StartRow(n, size, j)
    {
      PartitionAdjacent(n, size, i);
      MulMono(i + 1, j, q);
    }
    forall r | 0 <= r < size
      ensures EndRow(n, size, r) <= n
    {
      if r < size - 1 {
        assert EndRow(n, size, r) <= StartRow(n, size, size - 1);
      }
    }
  }

  /** Every row of the diagonal belongs to some rank's block: searching
      from any rank whose block starts at or before row m finds its owner. */
  lemma {:induction false} OwnerExists(n: nat, size: nat, m: nat, r: nat)
    requires size >= 1 && m < n && r < size && StartRow(n, size, r) <= m
    ensures exists o :: r <= o < size && StartRow(n, size, o) <= m < EndRow(n, size, o)
    decreases size - r
  {
    PartitionTiles(n, size);
    if m >= EndRow(n, size, r) {
      PartitionAdjacent(n, size, r);
      OwnerExists(n, size, m, r + 1);
    }
  }

  /** No row belongs to two ranks' blocks. */
  lemma OwnerUnique(n: nat, size: nat, m: nat, r1: nat, r2: nat)
    requires size >= 1
    requires StartRow(n, size, r1) <= m < EndRow(n, size, r1)
    requires StartRow(n, size, r2) <= m < EndRow(n, size, r2)
    ensures r1 == r2
  {
    PartitionTiles(n, size);
  }

  /** Sum of a sequence of counts. */
  function Sum(xs: seq<nat>): nat
  {
    if |xs| == 0 then 0 else Sum(xs[..|xs| - 1]) + xs[|xs| - 1]
  }

  /** The root's loop filling `recv_counts` and `displs` (for n = N - k rows
      and `size` ranks): count i is rank i's block length and displacement
      i its start row, and the counts add up to the length of the
      diagonal. */
  method GatherLayout(n: nat, size: nat) returns (recvCounts: seq<nat>, displs: seq<nat>)
    requires size >= 1
    ensures |recvCounts| == size && |displs| == size
    ensures forall i :: 0 <= i < size ==>
      recvCounts[i] == EndRow(n, size, i) - StartRow(n, size, i) && displs[i] == StartRow(n, size, i)
    ensures Sum(recvCounts) == n
  {
    var rowsPerProcess := n / size;
    var remainingRows := n % size;
    recvCounts, displs := [], [];
    var i := 0;
    while i < size
      invariant 0 <= i <= size && |recvCounts| == i && |displs| == i
      invariant forall t :: 0 <= t < i ==>
        recvCounts[t] == EndRow(n, size, t) - StartRow(n, size, t) && displs[t] == StartRow(n, size, t)
      invariant Sum(recvCounts) == StartRow(n, size, i)
    {
      PartitionBalanced(n, size, i);
      PartitionAdjacent(n, size, i);
      recvCounts := recvCounts + [n / size + (if i < remainingRows then 1 else 0)];
      displs := displs + [i * rowsPerProcess + Min(i, remainingRows)];
      i := i + 1;
    }
    PartitionTiles(n, size);
    PartitionAdjacent(n, size, size - 1);
  }

  /** What step (k, m) of window B computes from buffer s: the cube root of
      the dot product of the row window and the mirror window. */
  function KernelB(s: seq<real>, N: nat, fp: Fp, k: nat, m: nat): real
    requires |s| == N * N && m + k < N
  {
    fp.cbrt(Dot(fp, RowWindow(s, N, m, k), MirrorWindow(s, N, m, k)))
  }

  /** Rank r's block lies inside the diagonal. */
  lemma BlockInRange(n: nat, size: nat, r: nat)
    requires size >= 1 && r < size
    ensures StartRow(n, size, r) <= EndRow(n, size, r) <= n
  {
    PartitionTiles(n, size);
  }

  /** One rank's share of diagonal k: the rows of its block, each
      accumulated into `local_results` from index j = 0 up, reading
      M[m][m+j] and M[m+k][m+j+1], then replaced by its cube root.  The
      matrix is only read. */
  method LocalCompute(M: array<real>, N: nat, fp: Fp, k: nat, size: nat, rank: nat) returns (startRow: nat, localResults: seq<real>)
    requires M.Length == N * N && 1 <= k < N && size >= 1 && rank < size
    ensures startRow == StartRow(N - k, size, rank)
    ensures startRow + |localResults| == EndRow(N - k, size, rank) <= N - k
    ensures forall t :: 0 <= t < |localResults| ==> localResults[t] == KernelB(M[..], N, fp, k, startRow + t)
  {
    BlockInRange(N - k, size, rank);
    var rowsPerProcess := (N - k) / size;
    var remainingRows := (N - k) % size;
    startRow := rank * rowsPerProcess + Min(rank, remainingRows);
    var endRow := startRow + rowsPerProcess + (if rank < remainingRows then 1 else 0);
    localResults := seq(endRow - startRow, _ => 0.0);
    var m := startRow;
    while m < endRow
      invariant startRow <= m <= endRow && |localResults| == endRow - startRow
      invariant forall t :: 0 <= t < m - startRow ==> localResults[t] == KernelB(M[..], N, fp, k, startRow + t)
    {
      ghost var row := RowWindow(M[..], N, m, k);
      ghost var mirror := MirrorWindow(M[..], N, m, k);
      localResults := localResults[m - startRow := 0.0];
      var j := 0;
      while j < k
        invariant 0 <= j <= k && |localResults| == endRow - startRow
        invariant localResults[m - startRow] == Dot(fp, row[..j], mirror)
        invariant forall t :: 0 <= t < m - startRow ==> localResults[t] == KernelB(M[..], N, fp, k, startRow + t)
      {
        assert row[..j + 1][..j] == row[..j];
        localResults := localResults[m - startRow :=
          fp.add(localResults[m - startRow], fp.mul(M[Idx(N, m, m + j)], M[Idx(N, m + k, m + j + 1)]))];
        j := j + 1;
      }
      assert row[..k] == row;
      localResults := localResults[m - startRow := fp.cbrt(localResults[m - startRow])];
      m := m + 1;
    }
  }

  /** MPI_Gatherv's placement of one rank's block at the root: the rank's
      `local_results` land at its displacement, every other position of the
      receive buffer keeps its value. */
  method PlaceBlock(gathered: seq<real>, displ: nat, local: seq<real>) returns (g: seq<real>)
    requires displ + |local| <= |gathered|
    ensures |g| == |gathered|
    ensures forall t :: 0 <= t < |local| ==> g[displ + t] == local[t]
    ensures forall p :: 0 <= p < |gathered| && !(displ <= p < displ + |local|) ==> g[p] == gathered[p]
  {
    g := gathered;
    var t := 0;
    while t < |local|
      invariant 0 <= t <= |local| && |g| == |gathered|
      invariant forall t' :: 0 <= t' < t ==> g[displ + t'] == local[t']
      invariant forall p :: 0 <= p < |gathered| && !(displ <= p < displ + t) ==> g[p] == gathered[p]
    {
      g := g[displ + t := local[t]];
      t := t + 1;
    }
  }

  /** s' is s with diagonal k, in both triangles, replaced by diagTemp:
      M[m+k][m] and M[m][m+k] hold diagTemp[m], and no cell off diagonal k
      differs. */
  ghost predicate Installed(s: seq<real>, s': seq<real>, N: nat, k: nat, diagTemp: seq<real>)
    requires |s| == N * N && |s'| == N * N && 1 <= k < N && |diagTemp| == N - k
  {
    && (forall m :: 0 <= m < N - k ==> s'[Idx(N, m + k, m)] == diagTemp[m] && s'[Idx(N, m, m + k)] == diagTemp[m])
    && (forall r: nat, c: nat :: r < N && c < N && Dist(r, c) != k ==> s'[Idx(N, r, c)] == s[Idx(N, r, c)])
  }

  /** The install loop run by every rank after the broadcast: diag_temp[m]
      goes to M[m+k][m] and then to M[m][m+k], for every row m of diagonal
      k; no cell off diagonal k changes. */
  method InstallDiagonal(M: array<real>, N: nat, k: nat, diagTemp: seq<real>)
    requires M.Length == N * N && 1 <= k < N && |diagTemp| == N - k
    modifies M
    ensures Installed(old(M[..]), M[..], N, k, diagTemp)
  {
    Layout(N);
    var m := 0;
    while m < N - k
      invariant 0 <= m <= N - k
      invariant forall i :: 0 <= i < m ==> M[Idx(N, i + k, i)] == diagTemp[i] && M[Idx(N, i, i + k)] == diagTemp[i]
      invariant forall r: nat, c: nat :: r < N && c < N && Dist(r, c) != k ==> M[Idx(N, r, c)] == old(M[Idx(N, r, c)])
    {
      M[Idx(N, m + k, m)] := diagTemp[m];
      M[Idx(N, m, m + k)] := M[Idx(N, m + k, m)];
      m := m + 1;
    }
  }

  /** Installing the gathered diagonal k, whose every row holds the kernel
      over the windows of the state it was computed from, is the step of
      all rows of diagonal k: it takes stage (k, {}) to stage (k + 1, {}). */
  lemma InstallAdvances(s: seq<real>, s': seq<real>, s0: seq<real>, N: nat, fp: Fp, k: nat, diagTemp: seq<real>)
    requires |s| == N * N && |s'| == N * N && |s0| == N * N && 1 <= k < N && |diagTemp| == N - k
    requires StageB(s, s0, N, fp, k, {})
    requires forall m :: 0 <= m < N - k ==> diagTemp[m] == KernelB(s, N, fp, k, m)
    requires Installed(s, s', N, k, diagTemp)
    ensures StageB(s', s0, N, fp, k + 1, {})
  {
    forall m: nat | 0 <= m < N - k
      ensures s'[Idx(N, m + k, m)] == fp.cbrt(Dot(fp, RowWindow(s, N, m, k), MirrorWindow(s, N, m, k)))
      ensures s'[Idx(N, m, m + k)] == s'[Idx(N, m + k, m)]
    {
      assert diagTemp[m] == KernelB(s, N, fp, k, m);
    }
    forall r: nat, c: nat | r < N && c < N && !(c + k == r && 0 <= c < N - k) && !(r + k == c && 0 <= r < N - k)
      ensures s'[Idx(N, r, c)] == s[Idx(N, r, c)]
    {
      assert Dist(r, c) != k;
    }
    assert RowsStepB(s, s', N, fp, k, 0, N - k);
    var rows := RowRange(0, N - k);
    AdvanceRowsB(s, s', s0, N, fp, k, 0, N - k, {}, rows);
    NextDiagonalB(s', s0, N, fp, k, {} + rows);
  }

  /** One step k of the wavefront, up to the broadcast: the root lays out the
      receive counts and displacements, every rank computes its block, the
      gather places each block at its rank's displacement in the zeroed
      receive buffer, and the broadcast hands every rank the root's copy.
      The ranks run concurrently; they are taken here in rank order, which
      changes nothing since a block only reads the matrix.  Position m of
      the result is row m's value, whichever rank computed it. */
  method GatherDiagonal(M: array<real>, N: nat, fp: Fp, k: nat, size: nat) returns (diagTemp: seq<real>)
    requires M.Length == N * N && 1 <= k < N && size >= 1
    ensures |diagTemp| == N - k
    ensures forall m :: 0 <= m < N - k ==> diagTemp[m] == KernelB(M[..], N, fp, k, m)
  {
    var recvCounts, displs := GatherLayout(N - k, size);
    ghost var s := M[..];
    var gathered := seq(N - k, _ => 0.0);
    ghost var filled := 0;
    var rank := 0;
    while rank < size
      invariant 0 <= rank <= size && |gathered| == N - k
      invariant filled == StartRow(N - k, size, rank) && filled <= N - k
      invariant forall m :: 0 <= m < filled ==> gathered[m] == KernelB(s, N, fp, k, m)
    {
      var start, local := LocalCompute(M, N, fp, k, size, rank);
      PartitionAdjacent(N - k, size, rank);
      ghost var before := gathered;
      assert recvCounts[rank] == |local| && displs[rank] == start;
      gathered := PlaceBlock(gathered, displs[rank], local);
      forall m | 0 <= m < start + |local|
        ensures gathered[m] == KernelB(s, N, fp, k, m)
      {
        if m >= start {
          assert gathered[start + (m - start)] == local[m - start];
        } else {
          assert gathered[m] == before[m];
        }
      }
      filled := start + |local|;
      rank := rank + 1;
    }
    PartitionTiles(N - k, size);
    PartitionAdjacent(N - k, size, size - 1);
    // MPI_Bcast: every rank receives the root's copy.
    diagTemp := gathered;
  }

  /** One iteration of the k loop: the gathered diagonal, then the install
      loop.  The matrix goes from the start of diagonal k to the start of
      diagonal k + 1, for any number of ranks. */
  method MpiDiagonal(M: array<real>, N: nat, fp: Fp, k: nat, size: nat, ghost s0: seq<real>)
    requires M.Length == N * N && |s0| == N * N && 1 <= k < N && size >= 1
    requires StageB(M[..], s0, N, fp, k, {})
    modifies M
    ensures StageB(M[..], s0, N, fp, k + 1, {})
  {
    var diagTemp := GatherDiagonal(M, N, fp, k, size);
    ghost var s := M[..];
    InstallDiagonal(M, N, k, diagTemp);
    InstallAdvances(s, M[..], s0, N, fp, k, diagTemp);
  }

  /** The seeded main diagonal: main_diag[i] = (i + 1) / N. */
  function MainDiag(N: nat): seq<real>
    requires N >= 1
  {
    seq(N, i => (i + 1) as real / N as real)
  }

  /** The root fills main_diag, the broadcast copies it to every rank, and
      every rank writes it into the diagonal of its zeroed matrix. */
  method SeedMatrix(N: nat) returns (M: array<real>)
    requires N >= 1
    ensures fresh(M) && M.Length == N * N
    ensures Diagonal(M[..], N) == MainDiag(N)
    ensures forall r: nat, c: nat :: r < N && c < N && r != c ==> M[Idx(N, r, c)] == 0.0
  {
    Layout(N);
    var mainDiag := new real[N](_ => 0.0);
    var i := 0;
    while i < N
      invariant 0 <= i <= N
      invariant forall t :: 0 <= t < i ==> mainDiag[t] == MainDiag(N)[t]
    {
      mainDiag[i] := (i + 1) as real / N as real;
      i := i + 1;
    }
    // MPI_Bcast of main_diag: every rank receives the root's copy.
    var received := mainDiag[..];
    M := new real[N * N](_ => 0.0);
    i := 0;
    while i < N
      invariant 0 <= i <= N
      invariant forall t :: 0 <= t < i ==> M[Idx(N, t, t)] == received[t]
      invariant forall r: nat, c: nat :: r < N && c < N && !(r == c && r < i) ==> M[Idx(N, r, c)] == 0.0
    {
      M[Idx(N, i, i)] := received[i];
      i := i + 1;
    }
    assert forall t :: 0 <= t < N ==> Diagonal(M[..], N)[t] == MainDiag(N)[t];
  }

  /** `main` of mpi_wf.cpp for a matrix size N and `size` ranks: N < 1 is
      refused with status -1 and nothing computed; otherwise the matrix is
      seeded, the k loop runs diagonals 1 .. N-1, and the root clears the
      lower triangle.  The root's matrix is then the upper-triangular matrix
      of the window-B recurrence over (i + 1) / N, as sequential_wf.cpp
      computes it, whatever the number of ranks. */
  method MpiWavefront(N: int, size: nat, fp: Fp) returns (status: int, M: array<real>)
    requires size >= 1
    ensures status == -1 <==> N < 1
    ensures N >= 1 ==> status == 0 && M.Length == N * N
    ensures N >= 1 ==> forall i: nat, j: nat :: i <= j < N ==> M[Idx(N, i, j)] == ValB(fp, MainDiag(N), i, j)
    ensures N >= 1 ==> forall i: nat, j: nat :: i < j < N ==> M[Idx(N, j, i)] == 0.0
  {
    if N < 1 {
      status := -1;
      M := new real[0];
      return;
    }
    M := SeedMatrix(N);
    ghost var s0 := M[..];
    var k := 1;
    while k < N
      invariant 1 <= k <= N
      invariant StageB(M[..], s0, N, fp, k, {})
    {
      MpiDiagonal(M, N, fp, k, size, s0);
      k := k + 1;
    }
    ClearLowerTriangle(M, N);
    status := 0;
  }
}
