/** The order in which the sequential loops visit the steps of a wavefront:
    diagonal k = 1 .. N-1 in increasing order and, inside a diagonal, rows
    m = 0 .. N-k-1 in increasing order.  Step (k, m) computes upper cell
    (m, m+k). */
module Order {

  datatype Step = Step(k: nat, m: nat)

  /** The first n steps of diagonal k: rows 0 .. n-1. */
  function RowSteps(k: nat, n: nat): seq<Step>
  {
    if n == 0 then [] else RowSteps(k, n - 1) + [Step(k, n - 1)]
  }

  /** All steps of the diagonals 1 .. k-1 of an N x N matrix. */
  function DiagonalSteps(N: nat, k: nat): seq<Step>
    requires k <= N
  {
    if k <= 1 then [] else DiagonalSteps(N, k - 1) + RowSteps(k - 1, N - (k - 1))
  }

  /** The whole run. */
  function Schedule(N: nat): seq<Step>
  {
    DiagonalSteps(N, N)
  }

  /** What parallel_for(0, n, 1, ...) guarantees about the rows it runs: each
      row of [0, n) exactly once, in some order. */
  predicate IsRowOrder(order: seq<nat>, n: nat)
  {
    && |order| == n
    && (forall m: nat :: m < n ==> m in order)
    && (forall p :: 0 <= p < |order| ==> order[p] < n)
    && (forall p, q :: 0 <= p < q < |order| ==> order[p] != order[q])
  }

  /** Step a comes before step b in (diagonal, row) order. */
  predicate Before(a: Step, b: Step)
  {
    a.k < b.k || (a.k == b.k && a.m < b.m)
  }

  predicate Increasing(s: seq<Step>)
  {
    forall p, q :: 0 <= p < q < |s| ==> Before(s[p], s[q])
  }

  /** The rows of one diagonal are visited as 0, 1, .., n-1. */
  lemma {:induction false} RowStepsAre(k: nat, n: nat)
    ensures |RowSteps(k, n)| == n
    ensures forall p :: 0 <= p < n ==> RowSteps(k, n)[p] == Step(k, p)
  {
    if n > 0 {
      RowStepsAre(k, n - 1);
    }
  }

  /** The diagonals below k hold exactly the steps (k', m) with 1 <= k' < k
      and m + k' < N, in increasing order. */
  lemma {:induction false} DiagonalStepsAre(N: nat, k: nat)
    requires k <= N
    ensures forall st :: st in DiagonalSteps(N, k) <==> 1 <= st.k < k && st.m + st.k < N
    ensures Increasing(DiagonalSteps(N, k))
  {
    if k > 1 {
      DiagonalStepsAre(N, k - 1);
      var a, b := DiagonalSteps(N, k - 1), RowSteps(k - 1, N - (k - 1));
      RowStepsAre(k - 1, N - (k - 1));
      assert forall st :: st in b <==> st.k == k - 1 && st.m < N - (k - 1) by {
        forall st ensures st in b <==> st.k == k - 1 && st.m < N - (k - 1) {
          if st.k == k - 1 && st.m < N - (k - 1) {
            assert b[st.m] == st;
          }
        }
      }
      forall p, q | 0 <= p < q < |a + b| ensures Before((a + b)[p], (a + b)[q]) {
        if q < |a| {
          assert (a + b)[p] == a[p] && (a + b)[q] == a[q];
        } else if p < |a| {
          assert (a + b)[p] == a[p] && a[p] in a;
        }
      }
    }
  }

  /** Every upper off-diagonal cell (m, m+k) is computed by exactly one step
      of the run, no step touches the main diagonal, and steps come in
      (diagonal, row) order, so diagonal k is complete before diagonal k + 1
      starts. */
  lemma ScheduleExactlyOnce(N: nat)
    ensures forall st :: st in Schedule(N) <==> 1 <= st.k && st.m + st.k < N
    ensures forall p, q :: 0 <= p < q < |Schedule(N)| ==> Schedule(N)[p] != Schedule(N)[q]
    ensures forall p, q :: 0 <= p < q < |Schedule(N)| ==> Schedule(N)[p].k <= Schedule(N)[q].k
  {
    DiagonalStepsAre(N, N);
  }

  /** A 1 x 1 matrix needs no step; a 2 x 2 matrix needs exactly (1, 0). */
  lemma SmallSchedules()
    ensures Schedule(1) == []
    ensures Schedule(2) == [Step(1, 0)]
  {
  }
}
