/**
 * The static split of the seeding scan among threads_count workers: worker
 * id scans the block [id * interval, id * interval + interval), where
 * interval = nodes_count / threads_count, and each worker with
 * id < remainder = nodes_count % threads_count also takes the single node
 * nodes_count - id - 1. Both operands are non-negative and the divisor is
 * at least 1, so C's truncating / and % agree with Dafny's here.
 */
module Partition {
  import opened NodeSeqs

  /** interval: how many block nodes each worker scans. */
  function Interval(n: nat, w: nat): nat
    requires w >= 1
  {
    n / w
  }

  /** remainder: how many workers take one extra node from the end. */
  function Remainder(n: nat, w: nat): nat
    requires w >= 1
  {
    n % w
  }

  /** start = id * interval */
  function BlockStart(n: nat, w: nat, id: nat): nat
    requires w >= 1
  {
    id * Interval(n, w)
  }

  /** finish = start + interval */
  function BlockEnd(n: nat, w: nat, id: nat): nat
    requires w >= 1
  {
    BlockStart(n, w, id) + Interval(n, w)
  }

  /** Worker id is responsible for node v: in its block, or its remainder node. */
  predicate Assigned(n: nat, w: nat, id: nat, v: int)
    requires w >= 1
  {
    (BlockStart(n, w, id) <= v < BlockEnd(n, w, id)) || (id < Remainder(n, w) && v == n - id - 1)
  }

  /** The split of n into whole blocks and the remainder. */
  lemma DivSplit(n: nat, w: nat)
    requires w >= 1
    ensures n == w * Interval(n, w) + Remainder(n, w)
    ensures Remainder(n, w) < w
  {
  }

  /** Blocks of workers below w end inside [0, w * interval], hence inside [0, nodes_count]. */
  lemma BlockInRange(n: nat, w: nat, id: nat)
    requires w >= 1 && id < w
    ensures BlockEnd(n, w, id) <= w * Interval(n, w) <= n
  {
    var q := Interval(n, w);
    assert BlockEnd(n, w, id) == (id + 1) * q;
    MulMono(id + 1, w, q);
    DivSplit(n, w);
  }

  lemma MulMono(a: nat, b: nat, c: nat)
    requires a <= b
    ensures a * c <= b * c
  {
  }

  /**
   * If v lies in a block of width q >= 1 starting at id * q, then id is
   * v / q.
   */
  lemma DivUnique(v: int, q: nat, id: nat)
    requires q >= 1 && id * q <= v < id * q + q
    ensures v / q == id
  {
    var k := v / q;
    assert v == k * q + v % q && 0 <= v % q < q;
    if k < id {
      MulMono(k + 1, id, q);
    } else if k > id {
      MulMono(id + 1, k, q);
    }
  }

  /** The worker that handles node v: its block owner, or its remainder worker. */
  function Owner(n: nat, w: nat, v: int): (id: nat)
    requires w >= 1 && 0 <= v < n
    ensures id < w && Assigned(n, w, id, v)
  {
    DivSplit(n, w);
    var q := Interval(n, w);
    if v < w * q then
      assert q >= 1;
      var id := v / q;
      assert id * q <= v < id * q + q;
      assert id < w by {
        if id >= w {
          MulMono(w, id, q);
          assert false;
        }
      }
      id
    else
      n - 1 - v
  }

  /**
   * Every node of [0, nodes_count) is handled by exactly one worker: the
   * blocks are pairwise disjoint, they cover [0, threads_count * interval),
   * the remainder nodes cover the rest, and no node is both.
   */
  lemma {:induction false} AssignedToOwnerOnly(n: nat, w: nat, id: nat, v: int)
    requires w >= 1 && id < w && 0 <= v < n
    ensures Assigned(n, w, id, v) <==> id == Owner(n, w, v)
  {
    var q := Interval(n, w);
    DivSplit(n, w);
    BlockInRange(n, w, id);
    if Assigned(n, w, id, v) {
      if BlockStart(n, w, id) <= v < BlockEnd(n, w, id) {
        assert v < w * q;
        DivUnique(v, q, id);
      } else {
        assert v >= w * q;
      }
    }
  }

  /** Everything a worker below threads_count handles is a node. */
  lemma AssignedIsNode(n: nat, w: nat, id: nat, v: int)
    requires w >= 1 && id < w && Assigned(n, w, id, v)
    ensures 0 <= v < n
  {
    BlockInRange(n, w, id);
  }

  /**
   * The blocks alone: each node below threads_count * interval lies in the
   * block of exactly one worker, and no block node lies at or beyond it.
   */
  lemma BlocksPartitionPrefix(n: nat, w: nat, id: nat, v: int)
    requires w >= 1 && id < w && 0 <= v < n
    ensures BlockStart(n, w, id) <= v < BlockEnd(n, w, id) ==> v < w * Interval(n, w)
    ensures BlockStart(n, w, id) <= v < BlockEnd(n, w, id) <==> v < w * Interval(n, w) && v / Interval(n, w) == id
  {
    var q := Interval(n, w);
    BlockInRange(n, w, id);
    if BlockStart(n, w, id) <= v < BlockEnd(n, w, id) {
      DivUnique(v, q, id);
    }
    if v < w * q && v / q == id {
      assert q >= 1;
      assert v == (v / q) * q + v % q && 0 <= v % q < q;
    }
  }

  /**
   * The remainder nodes nodes_count - id - 1 for id < remainder are
   * exactly the nodes of [threads_count * interval, nodes_count).
   */
  lemma RemainderNodesAreTail(n: nat, w: nat, v: int)
    requires w >= 1
    ensures (0 <= n - 1 - v < Remainder(n, w)) <==> w * Interval(n, w) <= v < n
  {
    DivSplit(n, w);
  }

  /**
   * What worker id pushes to its local queue: the zero-counter nodes of its
   * block in ascending order, then its remainder node if that has a zero
   * counter.
   */
  function WorkerSeeds(n: nat, w: nat, id: nat, d: seq<int>): seq<int>
    requires w >= 1 && id < w && |d| == n
  {
    BlockInRange(n, w, id);
    ZerosIn(d, BlockStart(n, w, id), BlockEnd(n, w, id))
      + (if id < Remainder(n, w) && d[n - id - 1] == 0 then [n - id - 1] else [])
  }

  /**
   * A worker's local queue holds exactly the zero-counter nodes assigned to
   * it, each once.
   */
  lemma WorkerSeedsMembers(n: nat, w: nat, id: nat, d: seq<int>)
    requires w >= 1 && id < w && |d| == n
    ensures forall v :: v in WorkerSeeds(n, w, id, d) <==> 0 <= v < n && Assigned(n, w, id, v) && d[v] == 0
    ensures Distinct(WorkerSeeds(n, w, id, d))
  {
    BlockInRange(n, w, id);
    DivSplit(n, w);
    var lo, hi := BlockStart(n, w, id), BlockEnd(n, w, id);
    var block := ZerosIn(d, lo, hi);
    ZerosInMembers(d, lo, hi);
    if id < Remainder(n, w) && d[n - id - 1] == 0 {
      assert n - id - 1 >= w * Interval(n, w);
      assert n - id - 1 !in block;
      DistinctSnoc(block, n - id - 1);
    }
    forall v | 0 <= v < n && Assigned(n, w, id, v) && d[v] == 0
      ensures v in WorkerSeeds(n, w, id, d)
    {
      if lo <= v < hi {
        assert v in block;
      }
    }
  }

  /** The shared queue after the workers in order have each transferred their seeds. */
  function SeedsInOrder(n: nat, w: nat, order: seq<nat>, d: seq<int>): seq<int>
    requires w >= 1 && |d| == n
    requires forall k :: 0 <= k < |order| ==> order[k] < w
  {
    if order == [] then []
    else SeedsInOrder(n, w, order[..|order| - 1], d) + WorkerSeeds(n, w, order[|order| - 1], d)
  }

  /** The seeds of a run of workers are the zero-counter nodes those workers handle. */
  lemma {:induction false} SeedsInOrderMembers(n: nat, w: nat, order: seq<nat>, d: seq<int>)
    requires w >= 1 && |d| == n
    requires forall k :: 0 <= k < |order| ==> order[k] < w
    requires forall a, b :: 0 <= a < b < |order| ==> order[a] != order[b]
    ensures forall v :: v in SeedsInOrder(n, w, order, d) <==> 0 <= v < n && d[v] == 0 && Owner(n, w, v) in order
    ensures Distinct(SeedsInOrder(n, w, order, d))
  {
    if order != [] {
      var pre, id := order[..|order| - 1], order[|order| - 1];
      var a, b := SeedsInOrder(n, w, pre, d), WorkerSeeds(n, w, id, d);
      SeedsInOrderMembers(n, w, pre, d);
      WorkerSeedsMembers(n, w, id, d);
      forall v | v in b
        ensures 0 <= v < n && Owner(n, w, v) == id && v !in a
      {
        AssignedToOwnerOnly(n, w, id, v);
        assert id !in pre;
      }
      forall v | 0 <= v < n && d[v] == 0 && Owner(n, w, v) in order
        ensures v in a + b
      {
        AssignedToOwnerOnly(n, w, id, v);
        if Owner(n, w, v) != id {
          assert Owner(n, w, v) in pre;
        }
      }
      forall v | v in a + b
        ensures Owner(n, w, v) in order
      {
        if v in b {
          AssignedToOwnerOnly(n, w, id, v);
        } else {
          assert Owner(n, w, v) in pre;
        }
      }
      DistinctAppend(a, b);
    }
  }

  /** Two repetition-free sequences with no common element concatenate without repetition. */
  lemma DistinctAppend(a: seq<int>, b: seq<int>)
    requires Distinct(a) && Distinct(b)
    requires forall v :: v in b ==> v !in a
    ensures Distinct(a + b)
  {
    forall i, j | 0 <= i < j < |a + b|
      ensures (a + b)[i] != (a + b)[j]
    {
      if i < |a| && j >= |a| {
        assert (a + b)[j] == b[j - |a|];
        assert b[j - |a|] in b;
      }
    }
  }

  /**
   * Once every worker of [0, threads_count) has run, in any one order, the
   * shared queue holds each zero-counter node exactly once and no other
   * node.
   */
  lemma SharedQueueHoldsEachZeroOnce(n: nat, w: nat, order: seq<nat>, d: seq<int>)
    requires w >= 1 && |d| == n
    requires |order| == w && (forall k :: 0 <= k < |order| ==> order[k] < w)
    requires forall a, b :: 0 <= a < b < |order| ==> order[a] != order[b]
    ensures forall v :: v in SeedsInOrder(n, w, order, d) <==> 0 <= v < n && d[v] == 0
    ensures Distinct(SeedsInOrder(n, w, order, d))
  {
    SeedsInOrderMembers(n, w, order, d);
    var ids := seq(|order|, k requires 0 <= k < |order| => order[k] as int);
    assert Distinct(ids) && InRange(ids, w);
    DistinctInRangeBound(ids, w);
    forall v | 0 <= v < n && d[v] == 0
      ensures Owner(n, w, v) in order
    {
      var o := Owner(n, w, v);
      assert o in ids;
      var k := PositionOf(ids, o);
      assert order[k] == o;
    }
  }

  /**
   * Five nodes, two workers, all counters zero: interval 2, remainder 1, so
   * worker 0 takes 0, 1 and the last node 4, and worker 1 takes 2 and 3.
   */
  lemma FiveNodesTwoWorkers()
    ensures WorkerSeeds(5, 2, 0, [0, 0, 0, 0, 0]) == [0, 1, 4]
    ensures WorkerSeeds(5, 2, 1, [0, 0, 0, 0, 0]) == [2, 3]
  {
    var d := [0, 0, 0, 0, 0];
    assert Interval(5, 2) == 2 && Remainder(5, 2) == 1;
    assert ZerosIn(d, 0, 2) == ZerosIn(d, 0, 1) + [1];
    assert ZerosIn(d, 2, 4) == ZerosIn(d, 2, 3) + [3];
  }
}
