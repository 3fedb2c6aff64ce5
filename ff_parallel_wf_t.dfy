/** src/ff_parallel_wf_T.cpp: window B computed on nested vectors, with a
    second matrix MT that holds M's upper triangle transposed and reversed:
    cell (i, j) of M is kept at MT[max-j][max-i], max = n-1.  The kernel reads
    M[k+1][j] as MT[max-j][max-(k+1)], so every read of a column of M is a
    read along a row of MT.  The rows of a diagonal are run by parallel_for
    in an order that is a parameter of the model. */
module FfParallelWfT {
  import opened Kernel
  import opened Recurrence
  import opened Stage
  import opened Order

  /** The contents of a two-dimensional array, row by row. */
  ghost function Snapshot(A: array2<real>): (s: seq<seq<real>>)
    reads A
    ensures |s| == A.Length0
    ensures forall i :: 0 <= i < A.Length0 ==> |s[i]| == A.Length1
    ensures forall i, j :: 0 <= i < A.Length0 && 0 <= j < A.Length1 ==> s[i][j] == A[i, j]
  {
    seq(A.Length0, i requires 0 <= i < A.Length0 reads A => seq(A.Length1, j requires 0 <= j < A.Length1 reads A => A[i, j]))
  }

  /** The main diagonal of a square snapshot. */
  function MainDiagonal(s: seq<seq<real>>, n: nat): (d: seq<real>)
    requires |s| == n && forall i :: 0 <= i < n ==> |s[i]| == n
    ensures |d| == n && forall i :: 0 <= i < n ==> d[i] == s[i][i]
  {
    seq(n, i requires 0 <= i < n => s[i][i])
  }

  /** M and MT are distinct n x n matrices. */
  predicate Shape(M: array2<real>, MT: array2<real>, n: nat)
  {
    M != MT && M.Length0 == n && M.Length1 == n && MT.Length0 == n && MT.Length1 == n
  }

  /** A square n x n snapshot. */
  predicate Square(s: seq<seq<real>>, n: nat)
  {
    |s| == n && forall i :: 0 <= i < n ==> |s[i]| == n
  }

  /** Part-way through diagonal d, rows `done` of it finished, from M = s0 and
      MT = t0: computed upper cells of M hold the window-B recurrence and are
      mirrored in MT; the other upper cells and the whole lower triangle of M
      keep their initial values; so does every cell of MT that is not the
      mirror of a computed cell. */
  ghost predicate StageT(M: array2<real>, MT: array2<real>, n: nat, fp: Fp, s0: seq<seq<real>>, t0: seq<seq<real>>, d: nat, done: set<nat>)
    requires Shape(M, MT, n) && Square(s0, n) && Square(t0, n)
    reads M, MT
  {
    && (forall i: nat, j: nat :: i <= j < n ==>
          M[i, j] == if Done(d, done, i, j) then ValB(fp, MainDiagonal(s0, n), i, j) else s0[i][j])
    && (forall i: nat, j: nat :: i <= j < n && Done(d, done, i, j) ==> MT[n - 1 - j, n - 1 - i] == M[i, j])
    && (forall i: nat, j: nat :: i < j < n ==> M[j, i] == s0[j][i])
    && (forall a: nat, b: nat :: a < n && b < n && !(a <= b && Done(d, done, n - 1 - b, n - 1 - a)) ==> MT[a, b] == t0[a][b])
  }

  /** The barrier of diagonal d: every upper cell of the diagonals below d
      holds the window-B recurrence and is mirrored in MT. */
  ghost predicate SolvedBelowT(M: array2<real>, MT: array2<real>, n: nat, fp: Fp, seed: seq<real>, d: nat)
    requires Shape(M, MT, n) && |seed| == n
    reads M, MT
  {
    && (forall a: nat, b: nat :: a <= b < n && b - a < d ==> M[a, b] == ValB(fp, seed, a, b))
    && (forall a: nat, b: nat :: a <= b < n && b - a < d ==> MT[n - 1 - b, n - 1 - a] == M[a, b])
  }

  lemma BarrierT(M: array2<real>, MT: array2<real>, n: nat, fp: Fp, s0: seq<seq<real>>, t0: seq<seq<real>>, d: nat, done: set<nat>)
    requires Shape(M, MT, n) && Square(s0, n) && Square(t0, n)
    requires StageT(M, MT, n, fp, s0, t0, d, done)
    ensures SolvedBelowT(M, MT, n, fp, MainDiagonal(s0, n), d)
  {
  }

  /** The seeding in `main`: M[i][i] and MT[max-i][max-i] both get (i+1)/N,
      which establishes the mirror for the main diagonal. */
  method SeedDiagonals(M: array2<real>, MT: array2<real>, n: nat)
    requires Shape(M, MT, n)
    modifies M, MT
    ensures forall i :: 0 <= i < n ==> M[i, i] == (i + 1) as real / n as real
    ensures forall i :: 0 <= i < n ==> MT[n - 1 - i, n - 1 - i] == M[i, i]
    ensures forall i, j :: 0 <= i < n && 0 <= j < n && i != j ==> M[i, j] == old(M[i, j])
    ensures forall a, b :: 0 <= a < n && 0 <= b < n && a != b ==> MT[a, b] == old(MT[a, b])
  {
    var i := 0;
    while i < n
      invariant 0 <= i <= n
      invariant forall a :: 0 <= a < i ==> M[a, a] == (a + 1) as real / n as real
      invariant forall a :: 0 <= a < i ==> MT[n - 1 - a, n - 1 - a] == M[a, a]
      invariant forall a, b :: 0 <= a < n && 0 <= b < n && a != b ==> M[a, b] == old(M[a, b])
      invariant forall a, b :: 0 <= a < n && 0 <= b < n && a != b ==> MT[a, b] == old(MT[a, b])
    {
      M[i, i] := (i + 1) as real / n as real;
      MT[n - 1 - i, n - 1 - i] := (i + 1) as real / n as real;
      i := i + 1;
    }
  }

  /** The body of the parallel_for for row i of diagonal d, j = i + d: it sums
      M[i][k] * MT[max-j][max-(k+1)] for k = i .. j-1, a window of exactly d
      terms, takes the cube root and stores it in M[i][j] and MT[max-j][max-i].
      Every index lies in [0, n).  Once the diagonals below d are final and
      mirrored, the value stored is the window-B recurrence of (i, j); nothing
      but those two cells changes. */
  method CellT(M: array2<real>, MT: array2<real>, n: nat, fp: Fp, d: nat, i: nat, ghost seed: seq<real>)
    requires Shape(M, MT, n) && |seed| == n && 1 <= d && i + d < n
    requires SolvedBelowT(M, MT, n, fp, seed, d)
    modifies M, MT
    ensures M[i, i + d] == ValB(fp, seed, i, i + d)
    ensures MT[n - 1 - (i + d), n - 1 - i] == M[i, i + d]
    ensures forall a, b :: 0 <= a < n && 0 <= b < n && (a, b) != (i, i + d) ==> M[a, b] == old(M[a, b])
    ensures forall a, b :: 0 <= a < n && 0 <= b < n && (a, b) != (n - 1 - (i + d), n - 1 - i) ==> MT[a, b] == old(MT[a, b])
  {
    var max := n - 1;
    var j := d + i;
    var sum := 0.0;
    var k := i;
    while k < j
      invariant i <= k <= j
      invariant sum == SumB(fp, seed, i, j, k - i)
    {
      assert MT[max - j, max - (k + 1)] == ValB(fp, seed, k + 1, j);
      sum := fp.add(sum, fp.mul(M[i, k], MT[max - j, max - (k + 1)]));
      k := k + 1;
    }
    sum := fp.cbrt(sum);
    M[i, j] := sum;
    MT[max - j, max - i] := sum;
  }

  /** Row i of diagonal d, run at stage (d, done), adds i to the rows done. */
  method RowT(M: array2<real>, MT: array2<real>, n: nat, fp: Fp, d: nat, i: nat, ghost s0: seq<seq<real>>, ghost t0: seq<seq<real>>, ghost done: set<nat>)
    requires Shape(M, MT, n) && Square(s0, n) && Square(t0, n) && 1 <= d && i + d < n
    requires StageT(M, MT, n, fp, s0, t0, d, done)
    modifies M, MT
    ensures StageT(M, MT, n, fp, s0, t0, d, done + {i})
  {
    ghost var seed := MainDiagonal(s0, n);
    BarrierT(M, MT, n, fp, s0, t0, d, done);
    CellT(M, MT, n, fp, d, i, seed);
    forall a: nat, b: nat | a <= b < n
      ensures M[a, b] == if Done(d, done + {i}, a, b) then ValB(fp, seed, a, b) else s0[a][b]
    {
      if (a, b) != (i, i + d) {
        assert M[a, b] == old(M[a, b]);
      }
    }
    forall a: nat, b: nat | a <= b < n && Done(d, done + {i}, a, b)
      ensures MT[n - 1 - b, n - 1 - a] == M[a, b]
    {
      if (a, b) != (i, i + d) {
        assert (n - 1 - b, n - 1 - a) != (n - 1 - (i + d), n - 1 - i);
      }
    }
    forall a: nat, b: nat | a < n && b < n && !(a <= b && Done(d, done + {i}, n - 1 - b, n - 1 - a))
      ensures MT[a, b] == t0[a][b]
    {
      assert (a, b) != (n - 1 - (i + d), n - 1 - i);
      assert MT[a, b] == old(MT[a, b]);
    }
  }

  /** The parallel_for of diagonal d: CellT for every row, in the runtime's
      order.  It takes M and MT from the start of diagonal d to the start of
      diagonal d + 1. */
  method ParallelDiagonalT(M: array2<real>, MT: array2<real>, n: nat, fp: Fp, d: nat, order: seq<nat>, ghost s0: seq<seq<real>>, ghost t0: seq<seq<real>>)
    requires Shape(M, MT, n) && Square(s0, n) && Square(t0, n) && 1 <= d < n
    requires IsRowOrder(order, n - d)
    requires StageT(M, MT, n, fp, s0, t0, d, {})
    modifies M, MT
    ensures StageT(M, MT, n, fp, s0, t0, d + 1, {})
  {
    var p := 0;
    ghost var done: set<nat> := {};
    while p < |order|
      invariant 0 <= p <= |order|
      invariant forall m: nat :: m in done <==> m in order[..p]
      invariant StageT(M, MT, n, fp, s0, t0, d, done)
    {
      var i := order[p];
      assert i in order;
      RowT(M, MT, n, fp, d, i, s0, t0, done);
      done := done + {i};
      assert order[..p + 1] == order[..p] + [i];
      p := p + 1;
    }
    assert order[..p] == order;
  }

  /** `computeUpperTriangleParallelForWithTranspose`: diagonals d = 1 .. n-1,
      each finished before the next starts.  Given M and MT seeded with the
      same diagonal, on return every upper cell of M holds the window-B
      recurrence, which is the result of sequential_wf.cpp; MT mirrors every
      upper cell; the lower triangles of M and MT are never written. */
  method ComputeUpperTriangle(M: array2<real>, MT: array2<real>, n: nat, fp: Fp, orders: nat -> seq<nat>)
    requires Shape(M, MT, n)
    requires forall i :: 0 <= i < n ==> MT[n - 1 - i, n - 1 - i] == M[i, i]
    requires forall d :: 1 <= d < n ==> IsRowOrder(orders(d), n - d)
    modifies M, MT
    ensures forall i: nat, j: nat :: i <= j < n ==> M[i, j] == ValB(fp, MainDiagonal(old(Snapshot(M)), n), i, j)
    ensures forall i: nat, j: nat :: i <= j < n ==> MT[n - 1 - j, n - 1 - i] == M[i, j]
    ensures forall i: nat, j: nat :: i < j < n ==> M[j, i] == old(M[j, i])
    ensures forall i: nat, j: nat :: i < j < n ==> MT[j, i] == old(MT[j, i])
  {
    ghost var s0 := Snapshot(M);
    ghost var t0 := Snapshot(MT);
    var d := 1;
    while d < n
      invariant 1 <= d && (n >= 1 ==> d <= n)
      invariant StageT(M, MT, n, fp, s0, t0, d, {})
    {
      ParallelDiagonalT(M, MT, n, fp, d, orders(d), s0, t0);
      d := d + 1;
    }
  }
}
