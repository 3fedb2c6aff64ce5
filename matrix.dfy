/** Row-major layout of the N x N matrix buffer shared by all variants, and
    the final pass that clears the lower triangle. */
module Matrix {

  /** Start of row r in the flat buffer, `r * N`, written as r steps of one
      row length each so that the solver reasons about positions without
      products (IdxIsRowMajor states the closed form). */
  function RowStart(N: nat, r: nat): nat
    decreases r
  {
    if r == 0 then 0 else RowStart(N, r - 1) + N
  }

  /** Position of cell (r, c) of an N x N matrix in the flat buffer. */
  function Idx(N: nat, r: nat, c: nat): (p: nat)
    requires r < N && c < N
    ensures p < N * N
  {
    IdxInBounds(N, r, c);
    RowStart(N, r) + c
  }

  lemma {:induction false} RowStartIsProduct(N: nat, r: nat)
    ensures RowStart(N, r) == r * N
  {
    if r > 0 {
      RowStartIsProduct(N, r - 1);
    }
  }

  /** The layout is row-major: cell (r, c) sits at `r * N + c`. */
  lemma IdxIsRowMajor(N: nat, r: nat, c: nat)
    requires r < N && c < N
    ensures Idx(N, r, c) == r * N + c
  {
    RowStartIsProduct(N, r);
  }

  /** Every cell of an N x N matrix has a position inside the buffer. */
  lemma IdxInBounds(N: nat, r: nat, c: nat)
    requires r < N && c < N
    ensures RowStart(N, r) + c < N * N
  {
    RowStartIsProduct(N, r);
    assert r * N + c < r * N + N == (r + 1) * N;
    assert (r + 1) * N <= N * N by {
      MulMono(r + 1, N, N);
    }
  }

  lemma MulMono(a: nat, b: nat, n: nat)
    requires a <= b
    ensures a * n <= b * n
  {
  }

  /** Distinct cells have distinct positions: the layout is injective. */
  lemma IdxInjective(N: nat, r: nat, c: nat, r': nat, c': nat)
    requires r < N && c < N && r' < N && c' < N
    requires Idx(N, r, c) == Idx(N, r', c')
    ensures r == r' && c == c'
  {
    RowStartApart(N, r, r');
    RowStartApart(N, r', r);
  }

  /** A later row starts at least one row length further on. */
  lemma {:induction false} RowStartApart(N: nat, a: nat, b: nat)
    ensures a < b ==> RowStart(N, a) + N <= RowStart(N, b)
    decreases b
  {
    if a + 1 < b {
      RowStartApart(N, a, b - 1);
    }
  }

  /** The layout facts in quantified form, for frame reasoning over whole
      matrices. */
  lemma Layout(N: nat)
    ensures forall r: nat, c: nat, r': nat, c': nat ::
      r < N && c < N && r' < N && c' < N && Idx(N, r, c) == Idx(N, r', c') ==> r == r' && c == c'
  {
    forall r: nat, c: nat, r': nat, c': nat | r < N && c < N && r' < N && c' < N && Idx(N, r, c) == Idx(N, r', c') ensures r == r' && c == c' {
      IdxInjective(N, r, c, r', c');
    }
  }

  /** The main diagonal of a flat matrix, as a sequence. */
  function Diagonal(s: seq<real>, N: nat): (d: seq<real>)
    requires |s| == N * N
    ensures |d| == N
    ensures forall i :: 0 <= i < N ==> d[i] == s[Idx(N, i, i)]
  {
    seq(N, i requires 0 <= i < N => s[Idx(N, i, i)])
  }

  /** The clearing loop run after the wavefront (sequential_wf.cpp,
      ff_parallel_wf.cpp, ff_farm_wf.cpp, mpi_wf.cpp): every cell strictly
      below the main diagonal becomes 0, every other cell keeps its value. */
  method ClearLowerTriangle(M: array<real>, N: nat)
    requires M.Length == N * N
    modifies M
    ensures forall r: nat, c: nat :: 0 <= c < r < N ==> M[Idx(N, r, c)] == 0.0
    ensures forall r: nat, c: nat :: 0 <= r <= c < N ==> M[Idx(N, r, c)] == old(M[Idx(N, r, c)])
  {
    Layout(N);
    var i := 0;
    while i < N
      invariant 0 <= i <= N
      invariant forall r: nat, c: nat :: 0 <= c < r < i ==> M[Idx(N, r, c)] == 0.0
      invariant forall r: nat, c: nat :: 0 <= r < N && 0 <= c < N && (r >= i || c >= r) ==> M[Idx(N, r, c)] == old(M[Idx(N, r, c)])
    {
      var j := 0;
      while j < i
        invariant 0 <= j <= i
        invariant forall r: nat, c: nat :: 0 <= c < r < i ==> M[Idx(N, r, c)] == 0.0
        invariant forall c: nat :: 0 <= c < j ==> M[Idx(N, i, c)] == 0.0
        invariant forall r: nat, c: nat :: 0 <= r < N && 0 <= c < N && (r > i || c >= r || (r == i && c >= j)) ==> M[Idx(N, r, c)] == old(M[Idx(N, r, c)])
      {
        M[Idx(N, i, j)] := 0.0;
        j := j + 1;
      }
      i := i + 1;
    }
  }
}
