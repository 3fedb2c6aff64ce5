/** Static partitioning of one diagonal into tasks, shared by the two FastFlow
    farms (ff_farm_wf.cpp and wf-farm.cpp): diagonal k, of length N-k, is cut
    into chunks (k, m, len) of chunk_size rows, the last one shorter. */
module Chunks {

  datatype Option<T> = None | Some(value: T)

  /** A unit of work sent to a farm worker: rows m .. m+size-1 of diagonal k. */
  datatype Task = Task(k: nat, m: nat, size: nat)

  function Min(a: nat, b: nat): nat
  {
    if a <= b then a else b
  }

  /** `ceil(N / nw)` of the ff_farm_wf.cpp Emitter, in integer arithmetic. */
  function CeilChunkSize(N: nat, nw: nat): nat
    requires nw >= 1
  {
    (N + nw - 1) / nw
  }

  /** `N / nw` of the wf-farm.cpp Emitter. */
  function FloorChunkSize(N: nat, nw: nat): nat
    requires nw >= 1
  {
    N / nw
  }

  /** The rounded-up chunk size is at least one row whenever N >= 1, and it
      is the least size with which nw chunks cover N rows. */
  lemma CeilChunkSizeBounds(N: nat, nw: nat)
    requires nw >= 1
    ensures N >= 1 ==> CeilChunkSize(N, nw) >= 1
    ensures CeilChunkSize(N, nw) * nw >= N
    ensures CeilChunkSize(N, nw) >= 1 ==> (CeilChunkSize(N, nw) - 1) * nw < N
  {
    var c := CeilChunkSize(N, nw);
    assert (N + nw - 1) == c * nw + (N + nw - 1) % nw;
  }

  /** The rounded-down chunk size is zero exactly when there are more workers
      than rows, and otherwise nw chunks of it never exceed N rows. */
  lemma FloorChunkSizeZero(N: nat, nw: nat)
    requires nw >= 1
    ensures FloorChunkSize(N, nw) == 0 <==> nw > N
    ensures FloorChunkSize(N, nw) * nw <= N
  {
    assert N == FloorChunkSize(N, nw) * nw + N % nw;
  }

  /** The chunks the Emitter's loop sends for diagonal k with n = N-k rows,
      from row m on: (k, m, min(cs, n-m)), then from m + cs. */
  function StaticChunks(k: nat, n: nat, cs: nat, m: nat): seq<Task>
    requires cs >= 1
    decreases n - m
  {
    if m >= n then [] else [Task(k, m, Min(cs, n - m))] + StaticChunks(k, n, cs, m + cs)
  }

  /** The dispatch loop shared by both Emitters:
      `for (m = 0; m < N-k; m += chunk_size) send(Task{k, m, min(chunk_size, N-k-m)})`,
      collected into a sequence in sending order. */
  method EmitChunks(k: nat, n: nat, cs: nat) returns (tasks: seq<Task>)
    requires cs >= 1
    ensures tasks == StaticChunks(k, n, cs, 0)
  {
    tasks := [];
    var m := 0;
    while m < n
      invariant tasks + StaticChunks(k, n, cs, m) == StaticChunks(k, n, cs, 0)
      decreases n - m
    {
      tasks := tasks + [Task(k, m, Min(cs, n - m))];
      m := m + cs;
    }
  }

  predicate Covers(t: Task, r: nat)
  {
    t.m <= r < t.m + t.size
  }

  /** Some task of ts covers row r. */
  predicate Covered(ts: seq<Task>, r: nat)
    decreases |ts|
  {
    |ts| > 0 && (Covers(ts[|ts| - 1], r) || Covered(ts[..|ts| - 1], r))
  }

  lemma {:induction false} CoveredIff(ts: seq<Task>, r: nat)
    ensures Covered(ts, r) <==> exists p :: 0 <= p < |ts| && Covers(ts[p], r)
    decreases |ts|
  {
    if |ts| > 0 {
      var init := ts[..|ts| - 1];
      CoveredIff(init, r);
      if p :| 0 <= p < |ts| && Covers(ts[p], r) {
        if p < |ts| - 1 {
          assert init[p] == ts[p];
        }
      }
      if p :| 0 <= p < |init| && Covers(init[p], r) {
        assert ts[p] == init[p];
      }
    }
  }

  /** Sum of the task sizes: the number of rows the tasks stand for. */
  function TotalSize(ts: seq<Task>): nat
  {
    if |ts| == 0 then 0 else TotalSize(ts[..|ts| - 1]) + ts[|ts| - 1].size
  }

  /** The tasks of diagonal k tile the rows [0, n): none is empty, none
      reaches past row n-1, they come in increasing row order without
      overlapping, and every row is covered. */
  ghost predicate Tiles(ts: seq<Task>, k: nat, n: nat)
  {
    && (forall p :: 0 <= p < |ts| ==> ts[p].k == k && ts[p].size >= 1 && ts[p].m + ts[p].size <= n)
    && (forall p, q :: 0 <= p < q < |ts| ==> ts[p].m + ts[p].size <= ts[q].m)
    && (forall r: nat :: r < n ==> Covered(ts, r))
  }

  lemma {:induction false} TotalSizeCons(t: Task, ts: seq<Task>)
    ensures TotalSize([t] + ts) == t.size + TotalSize(ts)
    decreases |ts|
  {
    if |ts| > 0 {
      assert ([t] + ts)[..|ts|] == [t] + ts[..|ts| - 1];
      TotalSizeCons(t, ts[..|ts| - 1]);
    } else {
      assert [t] + ts == [t];
      assert [t][..0] == [];
    }
  }

  /** Chunks from row m on are non-empty tasks of diagonal k inside [m, n),
      in increasing row order without overlapping. */
  lemma {:induction false} StaticChunksShape(k: nat, n: nat, cs: nat, m: nat)
    requires cs >= 1
    ensures forall p :: 0 <= p < |StaticChunks(k, n, cs, m)| ==>
      StaticChunks(k, n, cs, m)[p].k == k && StaticChunks(k, n, cs, m)[p].size >= 1 &&
      m <= StaticChunks(k, n, cs, m)[p].m && StaticChunks(k, n, cs, m)[p].m + StaticChunks(k, n, cs, m)[p].size <= n
    ensures forall p, q :: 0 <= p < q < |StaticChunks(k, n, cs, m)| ==>
      StaticChunks(k, n, cs, m)[p].m + StaticChunks(k, n, cs, m)[p].size <= StaticChunks(k, n, cs, m)[q].m
    decreases n - m
  {
    if m < n {
      var t := Task(k, m, Min(cs, n - m));
      var rest := StaticChunks(k, n, cs, m + cs);
      StaticChunksShape(k, n, cs, m + cs);
      var ts := [t] + rest;
      assert StaticChunks(k, n, cs, m) == ts;
      forall p, q | 0 <= p < q < |ts|
        ensures ts[p].m + ts[p].size <= ts[q].m
      {
        assert ts[q] == rest[q - 1];
        if p > 0 {
          assert ts[p] == rest[p - 1];
        }
      }
    }
  }

  /** Chunks from row m on cover every row of [m, n). */
  lemma {:induction false} StaticChunksCover(k: nat, n: nat, cs: nat, m: nat)
    requires cs >= 1
    ensures forall r: nat :: m <= r < n ==> Covered(StaticChunks(k, n, cs, m), r)
    decreases n - m
  {
    if m < n {
      var t := Task(k, m, Min(cs, n - m));
      var rest := StaticChunks(k, n, cs, m + cs);
      StaticChunksCover(k, n, cs, m + cs);
      assert StaticChunks(k, n, cs, m) == [t] + rest;
      forall r: nat | m <= r < n
        ensures Covered([t] + rest, r)
      {
        CoveredIff([t] + rest, r);
        if r < m + cs {
          assert Covers(([t] + rest)[0], r);
        } else {
          CoveredIff(rest, r);
          var p :| 0 <= p < |rest| && Covers(rest[p], r);
          assert ([t] + rest)[p + 1] == rest[p];
        }
      }
    }
  }

  /** The sizes of the chunks from row m on add up to n - m. */
  lemma {:induction false} StaticChunksSize(k: nat, n: nat, cs: nat, m: nat)
    requires cs >= 1
    ensures TotalSize(StaticChunks(k, n, cs, m)) == if m <= n then n - m else 0
    decreases n - m
  {
    if m < n {
      var t := Task(k, m, Min(cs, n - m));
      var rest := StaticChunks(k, n, cs, m + cs);
      StaticChunksSize(k, n, cs, m + cs);
      assert StaticChunks(k, n, cs, m) == [t] + rest;
      TotalSizeCons(t, rest);
    }
  }

  /** The chunks one dispatch sends for diagonal k (N - k = n rows, chunk
      size cs >= 1) tile [0, n) and add up to n rows. */
  lemma StaticChunksTile(k: nat, n: nat, cs: nat)
    requires cs >= 1
    ensures Tiles(StaticChunks(k, n, cs, 0), k, n)
    ensures TotalSize(StaticChunks(k, n, cs, 0)) == n
  {
    StaticChunksShape(k, n, cs, 0);
    StaticChunksCover(k, n, cs, 0);
    StaticChunksSize(k, n, cs, 0);
  }

  lemma {:induction false} TotalSizeConcat(a: seq<Task>, b: seq<Task>)
    ensures TotalSize(a + b) == TotalSize(a) + TotalSize(b)
    decreases |b|
  {
    if |b| == 0 {
      assert a + b == a;
    } else {
      assert (a + b)[..|a + b| - 1] == a + b[..|b| - 1];
      TotalSizeConcat(a, b[..|b| - 1]);
    }
  }

  /** Tasks of size at least one add up to at least one row each. */
  lemma {:induction false} TotalSizeAtLeastCount(ts: seq<Task>)
    requires forall p :: 0 <= p < |ts| ==> ts[p].size >= 1
    ensures TotalSize(ts) >= |ts|
    decreases |ts|
  {
    if |ts| > 0 {
      TotalSizeAtLeastCount(ts[..|ts| - 1]);
    }
  }

  /** The in-flight tasks once task i has been taken out. */
  function Remove(ts: seq<Task>, i: nat): (r: seq<Task>)
    requires i < |ts|
    ensures |r| == |ts| - 1
    ensures forall p :: 0 <= p < |r| ==> r[p] == if p < i then ts[p] else ts[p + 1]
  {
    ts[..i] + ts[i + 1..]
  }

  /** Taking task i out removes exactly its rows from the total. */
  lemma TotalSizeRemove(ts: seq<Task>, i: nat)
    requires i < |ts|
    ensures TotalSize(Remove(ts, i)) + ts[i].size == TotalSize(ts)
  {
    var before, t, after := ts[..i], ts[i], ts[i + 1..];
    assert ts == (before + [t]) + after;
    assert Remove(ts, i) == before + after;
    assert TotalSize([t]) == t.size by {
      assert [t][..0] == [];
    }
    TotalSizeConcat(before + [t], after);
    TotalSizeConcat(before, [t]);
    TotalSizeConcat(before, after);
  }

  /** A row covered by the in-flight tasks but not by task i is still covered
      once task i is taken out. */
  lemma CoveredRemove(ts: seq<Task>, i: nat, r: nat)
    requires i < |ts| && Covered(ts, r) && !Covers(ts[i], r)
    ensures Covered(Remove(ts, i), r)
  {
    CoveredIff(ts, r);
    CoveredIff(Remove(ts, i), r);
    var p :| 0 <= p < |ts| && Covers(ts[p], r);
    if p < i {
      assert Remove(ts, i)[p] == ts[p];
    } else {
      assert Remove(ts, i)[p - 1] == ts[p];
    }
  }
}
