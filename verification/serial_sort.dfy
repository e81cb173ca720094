/**
 * The single-threaded sorter: Kahn's algorithm over the program's global
 * state (the queue's head and tail, the adjacency matrix, the in-degree
 * counters and the result array with its write index), held here by one
 * Sorter object.
 */
module SerialSort {
  import opened NodeSeqs
  import opened GraphStore

  class Sorter {
    /** nodes_count */
    const n: nat
    /** matrix: n-by-n, 1 marks an edge */
    const matrix: array2<int>
    /** dependencies_matrix: the counter of unresolved predecessors of each node */
    const deps: array<int>
    /** topology_matrix: the result, filled from index 0 */
    const topo: array<int>
    /** topology_matrix_index: how much of topo is filled */
    var topoIndex: nat
    /** The global queue from head to tail; [] when head is NULL. */
    var queue: seq<int>
    /** Every value pushed so far, oldest first. */
    ghost var enqueued: seq<int>

    ghost predicate Valid()
      reads this
    {
      matrix.Length0 == n && matrix.Length1 == n && deps.Length == n && topo.Length == n && deps != topo
    }

    /**
     * Each node is pushed at most once: a pushed node's counter has reached
     * zero and can only go on falling, and a node never pushed has a
     * non-zero counter.
     */
    ghost predicate Tracked()
      reads this, deps
    {
      && Valid()
      && PushedOnce(deps[..], enqueued)
    }

    /**
     * initialize: allocates the zeroed matrix and arrays, empties the queue,
     * then records every edge record (i, j) in input order.
     */
    constructor (nodesCount: nat, edges: seq<(int, int)>)
      requires forall e :: e in edges ==> 0 <= e.0 < nodesCount && 0 <= e.1 < nodesCount
      ensures Valid() && n == nodesCount
      ensures fresh(matrix) && fresh(deps) && fresh(topo)
      ensures queue == [] && enqueued == [] && topoIndex == 0
      ensures forall i, j :: 0 <= i < n && 0 <= j < n ==> matrix[i, j] == if (i, j) in edges then 1 else 0
      ensures forall j :: 0 <= j < n ==> deps[j] == CountTargets(edges, j)
      ensures NoRepeatedRecords(edges) ==> CountsPreds(matrix, deps[..])
    {
      n := nodesCount;
      matrix := new int[nodesCount, nodesCount]((i, j) => 0);
      deps := new int[nodesCount](i => 0);
      topo := new int[nodesCount](i => 0);
      topoIndex := 0;
      queue := [];
      enqueued := [];
      new;
      var k := 0;
      while k < |edges|
        invariant 0 <= k <= |edges|
        invariant Valid() && queue == [] && enqueued == [] && topoIndex == 0
        invariant forall i, j :: 0 <= i < n && 0 <= j < n ==> matrix[i, j] == if (i, j) in edges[..k] then 1 else 0
        invariant forall j :: 0 <= j < n ==> deps[j] == CountTargets(edges[..k], j)
      {
        assert edges[..k + 1] == edges[..k] + [edges[k]];
        assert edges[k] in edges;
        RecordEdge(edges[k].0, edges[k].1);
        k := k + 1;
      }
      assert edges[..k] == edges;
      if NoRepeatedRecords(edges) {
        forall j | 0 <= j < n
          ensures deps[j] == |Preds(matrix, j)|
        {
          DistinctRecordsCount(edges, j);
          forall i
            ensures i in Preds(matrix, j) <==> i in RecordedSources(edges, j)
          {
            if i in RecordedSources(edges, j) {
              var e :| e in edges && e.1 == j && e.0 == i;
            }
            if i in Preds(matrix, j) {
              assert (i, j) in edges;
            }
          }
          assert Preds(matrix, j) == RecordedSources(edges, j);
        }
      }
    }

    /** One edge record i j: matrix[i][j] = 1 and dependencies_matrix[j]++. */
    method RecordEdge(i: int, j: int)
      requires Valid() && 0 <= i < n && 0 <= j < n
      modifies matrix, deps
      ensures matrix[i, j] == 1 && deps[j] == old(deps[j]) + 1
      ensures forall a, b :: 0 <= a < n && 0 <= b < n && (a, b) != (i, j) ==> matrix[a, b] == old(matrix[a, b])
      ensures forall v :: 0 <= v < n && v != j ==> deps[v] == old(deps[v])
    {
      matrix[i, j] := 1;
      deps[j] := deps[j] + 1;
    }

    /** push_value: val goes in at the tail; into an empty queue it becomes head and tail. */
    method PushValue(val: int)
      modifies this`queue, this`enqueued
      ensures queue == old(queue) + [val]
      ensures old(queue) == [] ==> queue == [val]
      ensures enqueued == old(enqueued) + [val]
    {
      queue := queue + [val];
      enqueued := enqueued + [val];
    }

    /**
     * pop_value: -1 on an empty queue, which stays empty; otherwise the head
     * value, which alone is removed.
     */
    method PopValue() returns (v: int)
      modifies this`queue
      ensures old(queue) == [] ==> v == -1 && queue == []
      ensures old(queue) != [] ==> v == old(queue)[0] && queue == old(queue)[1..]
      ensures |old(queue)| == 1 ==> queue == []
    {
      if queue == [] {
        return -1;
      }
      v := queue[0];
      queue := queue[1..];
    }

    /**
     * The seeding scan: every node whose counter is zero is pushed, in
     * ascending index order; no counter changes.
     */
    method SeedQueue()
      requires Valid()
      modifies this`queue, this`enqueued
      ensures queue == old(queue) + ZerosIn(deps[..], 0, n)
      ensures enqueued == old(enqueued) + ZerosIn(deps[..], 0, n)
    {
      ghost var d := deps[..];
      var i := 0;
      while i < n
        invariant 0 <= i <= n
        invariant queue == old(queue) + ZerosIn(d, 0, i)
        invariant enqueued == old(enqueued) + ZerosIn(d, 0, i)
      {
        if deps[i] == 0 {
          PushValue(i);
        }
        i := i + 1;
      }
    }

    /**
     * The inner loop of the drain phase for the popped node cur: the counter
     * of each successor drops by one, and a successor is pushed exactly when
     * its counter reaches zero, in ascending order.
     */
    method ReleaseSuccessors(cur: int)
      requires Tracked() && 0 <= cur < n
      modifies this`queue, this`enqueued, deps
      ensures Tracked()
      ensures forall v :: 0 <= v < n ==> deps[v] == old(deps[v]) - (if Edge(matrix, cur, v) then 1 else 0)
      ensures queue == old(queue) + Released(matrix, cur, old(deps[..]), n)
      ensures enqueued == old(enqueued) + Released(matrix, cur, old(deps[..]), n)
    {
      ghost var d := deps[..];
      var i := 0;
      while i < n
        invariant 0 <= i <= n
        invariant Tracked()
        invariant deps[..] == Decremented(matrix, cur, d, i)
        invariant queue == old(queue) + Released(matrix, cur, d, i)
        invariant enqueued == old(enqueued) + Released(matrix, cur, d, i)
      {
        ReleaseStep(matrix, cur, d, i);
        ReleaseOne(cur, i);
        i := i + 1;
      }
      DecrementedValues(matrix, cur, d, n);
    }

    /**
     * One step of the inner loop: if cur -> i is an edge, the counter of i
     * drops by one, and i is pushed if it has just reached zero.
     */
    method ReleaseOne(cur: int, i: int)
      requires Tracked() && 0 <= cur < n && 0 <= i < n
      modifies this`queue, this`enqueued, deps
      ensures Tracked()
      ensures deps[..] == old(deps[..])[i := old(deps[i]) - (if Edge(matrix, cur, i) then 1 else 0)]
      ensures var r := if Edge(matrix, cur, i) && old(deps[i]) == 1 then [i] else [];
              queue == old(queue) + r && enqueued == old(enqueued) + r
    {
      if matrix[cur, i] == 1 {
        ghost var before := deps[..];
        deps[i] := deps[i] - 1;
        assert deps[..] == before[i := before[i] - 1];
        DecrementKeepsPushedOnce(before, enqueued, i);
        if deps[i] == 0 {
          PushValue(i);
        }
      }
    }

    /**
     * The state of the drain loop, relative to the counters d0 the run
     * started from and the ready nodes seeds that seeding pushed. pending is
     * [cur] while the popped node cur is being processed, and [] otherwise.
     */
    ghost predicate Progress(d0: seq<int>, seeds: seq<int>, pending: seq<int>)
      reads this, deps, topo, matrix
    {
      && Valid()
      && topoIndex <= n
      && DrainInv(matrix, d0, seeds, deps[..], topo[..topoIndex], pending, queue, enqueued)
    }

    /**
     * One turn of the drain loop for the popped node cur: its successors are
     * released, then cur is written at topology_matrix_index and the index
     * advances by one.
     */
    method ProcessNode(cur: int, ghost d0: seq<int>, ghost seeds: seq<int>)
      requires Progress(d0, seeds, [cur])
      modifies this`queue, this`enqueued, this`topoIndex, deps, topo
      ensures Progress(d0, seeds, [])
      ensures topoIndex == old(topoIndex) + 1 && topo[..topoIndex] == old(topo[..topoIndex]) + [cur]
      ensures queue == old(queue) + Released(matrix, cur, old(deps[..]), n)
      ensures enqueued == old(enqueued) + Released(matrix, cur, old(deps[..]), n)
      ensures |enqueued| <= n
    {
      ghost var done := topo[..topoIndex];
      ghost var before := deps[..];
      ghost var waiting := queue;
      ghost var e := enqueued;
      assert e == (done + [cur]) + waiting;
      assert cur in e;
      DistinctInRangeBound(e, n);
      ReleaseSuccessors(cur);
      ghost var released := Released(matrix, cur, before, n);
      assert topo[..topoIndex] == done;
      topo[topoIndex] := cur;
      topoIndex := topoIndex + 1;
      assert topo[..topoIndex - 1] == done;
      assert topo[..topoIndex] == done + [cur];
      StepKeepsDrainInv(matrix, d0, seeds, before, done, cur, waiting, e, deps[..]);
      DistinctInRangeBound(enqueued, n);
    }

    /**
     * calculate_topology. For any counters: each node is pushed at most once,
     * the result never outgrows topo, the nodes come out in the order they
     * were pushed, starting with the initially ready nodes in ascending order,
     * and form the one serial FIFO order of the starting counters; if no node
     * starts ready nothing is emitted. When the counters are
     * the in-degrees of the matrix: every emitted node comes after all its
     * predecessors, and every node is emitted exactly when the graph has no
     * cycle.
     */
    method CalculateTopology()
      requires Valid() && queue == [] && enqueued == []
      modifies this`queue, this`enqueued, this`topoIndex, deps, topo
      ensures topoIndex <= n && queue == []
      ensures Distinct(topo[..topoIndex]) && InRange(topo[..topoIndex], n)
      ensures topo[..topoIndex] == enqueued
      ensures ZerosIn(old(deps[..]), 0, n) <= topo[..topoIndex]
      ensures (forall v :: 0 <= v < n ==> old(deps[v]) != 0) ==> topoIndex == 0
      ensures CountsPreds(matrix, old(deps[..])) ==> PredecessorsFirst(matrix, topo[..topoIndex])
      ensures CountsPreds(matrix, old(deps[..])) ==>
                forall a, b :: 0 <= a < topoIndex && 0 <= b < topoIndex && Edge(matrix, topo[a], topo[b]) ==> a < b
      ensures CountsPreds(matrix, old(deps[..])) ==>
                (Acyclic(matrix) <==> topoIndex == n && forall v :: 0 <= v < n ==> v in topo[..n])
    ensures IsSerialOrder(matrix, old(deps[..]), topo[..topoIndex])
    {
      ghost var d0 := deps[..];
      topoIndex := 0;
      SeedQueue();
      SeedingStartsDrain(matrix, d0);
      assert topo[..topoIndex] == [];
      Drain(d0, ZerosIn(d0, 0, n));
      DrainFinished(matrix, d0, ZerosIn(d0, 0, n), deps[..], topo[..topoIndex], enqueued);
      if CountsPreds(matrix, d0) {
        EdgesGoForwardIn(matrix, topo, topoIndex);
      }
    }

    /**
     * The drain phase: pop until the queue is empty, processing each popped
     * node in turn.
     */
    method Drain(ghost d0: seq<int>, ghost seeds: seq<int>)
      requires Progress(d0, seeds, [])
      modifies this`queue, this`enqueued, this`topoIndex, deps, topo
      ensures Progress(d0, seeds, []) && queue == []
    {
      var cur := TakeNext(d0, seeds);
      while cur != -1
        invariant Progress(d0, seeds, if cur == -1 then [] else [cur])
        invariant cur == -1 ==> queue == []
        invariant |enqueued| <= n
        decreases n - |enqueued|, |queue| + (if cur == -1 then 0 else 1)
      {
        ProcessNode(cur, d0, seeds);
        cur := TakeNext(d0, seeds);
      }
    }

    /**
     * The pop at the head of each turn of the drain loop: -1 once the queue
     * is empty, otherwise the head, which becomes the node being processed.
     */
    method TakeNext(ghost d0: seq<int>, ghost seeds: seq<int>) returns (cur: int)
      requires Progress(d0, seeds, [])
      modifies this`queue
      ensures Progress(d0, seeds, if cur == -1 then [] else [cur])
      ensures cur == -1 <==> old(queue) == []
      ensures cur == -1 ==> queue == []
      ensures cur != -1 ==> |queue| == |old(queue)| - 1
      ensures |enqueued| <= n
    {
      PopKeepsDrainInv(matrix, d0, seeds, deps[..], topo[..topoIndex], queue, enqueued);
      DistinctInRangeBound(enqueued, n);
      if queue != [] {
        assert queue[0] in enqueued;
      }
      cur := PopValue();
    }
  }

  /** The positional form of predecessors-first, read off the array holding the result. */
  lemma EdgesGoForwardIn(m: array2<int>, t: array<int>, k: nat)
    requires k <= t.Length && Distinct(t[..k]) && PredecessorsFirst(m, t[..k])
    ensures forall a, b :: 0 <= a < k && 0 <= b < k && Edge(m, t[a], t[b]) ==> a < b
  {
    EdgesGoForward(m, t[..k]);
    forall a, b | 0 <= a < k && 0 <= b < k && Edge(m, t[a], t[b])
      ensures a < b
    {
      assert t[..k][a] == t[a] && t[..k][b] == t[b];
    }
  }

  /**
   * The invariant of the drain loop, over values: the counters d started as
   * d0 and seeding pushed seeds; out is the result so far, pending the popped
   * node not yet emitted, q the queue and e the push history. The result, the
   * pending node and the queue together are the push history in order; each
   * counter has dropped once per emitted predecessor; and, for counters that
   * start as the in-degrees, the result lists predecessors first and every
   * node waiting in the queue has all its predecessors in the result. The
   * push history is the seeds followed by the batch each emitted node
   * released, and every emitted node had been pushed before it was popped.
   */
  ghost predicate DrainInv(m: array2<int>, d0: seq<int>, seeds: seq<int>, d: seq<int>,
                           out: seq<int>, pending: seq<int>, q: seq<int>, e: seq<int>)
    reads m
  {
    && |d0| == |d| == m.Length0 == m.Length1
    && PushedOnce(d, e)
    && out + pending + q == e
    && seeds <= e
    && (seeds == [] ==> e == [])
    && (forall v :: 0 <= v < |d| ==> d[v] == d0[v] - CountFrom(m, out, v))
    && (CountsPreds(m, d0) ==> PredecessorsFirst(m, out))
    && (CountsPreds(m, d0) ==> forall x, p :: x in pending + q && Edge(m, p, x) ==> p in out)
    && e == seeds + Batches(m, d0, out)
    && (forall k :: 0 <= k < |out| ==> PushedBeforeTurn(m, d0, seeds, out, k))
  }

  /** After seeding, the drain loop's invariant holds with the seeds as queue and history. */
  lemma SeedingStartsDrain(m: array2<int>, d0: seq<int>)
    requires |d0| == m.Length0 == m.Length1
    ensures DrainInv(m, d0, ZerosIn(d0, 0, |d0|), d0, [], [], ZerosIn(d0, 0, |d0|), ZerosIn(d0, 0, |d0|))
  {
    var seeds := ZerosIn(d0, 0, |d0|);
    ZerosInMembers(d0, 0, |d0|);
    if CountsPreds(m, d0) {
      forall x | x in seeds
        ensures forall p :: !Edge(m, p, x)
      {
        CountFromBound(m, [], x);
      }
    }
  }

  /** Popping the head of the queue makes it the pending node. */
  lemma PopKeepsDrainInv(m: array2<int>, d0: seq<int>, seeds: seq<int>, d: seq<int>,
                         out: seq<int>, q: seq<int>, e: seq<int>)
    requires DrainInv(m, d0, seeds, d, out, [], q, e)
    ensures q != [] ==> DrainInv(m, d0, seeds, d, out, [q[0]], q[1..], e)
  {
    if q != [] {
      assert [q[0]] + q[1..] == q;
      assert out + [q[0]] + q[1..] == out + [] + q;
    }
  }

  /**
   * One turn of the drain loop keeps its invariant: releasing the successors
   * of the pending node cur and then emitting cur.
   */
  lemma StepKeepsDrainInv(m: array2<int>, d0: seq<int>, seeds: seq<int>, d: seq<int>,
                          out: seq<int>, cur: int, q: seq<int>, e: seq<int>, d': seq<int>)
    requires DrainInv(m, d0, seeds, d, out, [cur], q, e)
    requires PushedOnce(d', e + Released(m, cur, d, |d|)) && |d'| == |d|
    requires forall v :: 0 <= v < |d| ==> d'[v] == d[v] - (if Edge(m, cur, v) then 1 else 0)
    ensures DrainInv(m, d0, seeds, d', out + [cur], [], q + Released(m, cur, d, |d|), e + Released(m, cur, d, |d|))
  {
    var r := Released(m, cur, d, |d|);
    ReleasedMembers(m, cur, d, |d|);
    var out' := out + [cur];
    assert out' + [] + (q + r) == e + r;
    assert (out')[..|out|] == out;
    assert Distinct(out') by {
      assert (e + r)[..|out| + 1] == out';
      DistinctPrefix(e + r, |out| + 1);
    }
    forall v | 0 <= v < |d|
      ensures d'[v] == d0[v] - CountFrom(m, out', v)
    {
    }
    StepExtendsBatches(m, d0, seeds, d, out, cur, e);
    if CountsPreds(m, d0) {
      AppendReady(m, out, cur);
      forall x, p | x in [] + (q + r) && Edge(m, p, x)
        ensures p in out'
      {
        if x in r {
          CountFromBound(m, out', x);
        }
      }
    }
  }

  /**
   * Emitting cur after out appends the batch cur releases under the current
   * counters, and cur had been pushed before its turn.
   */
  lemma StepExtendsBatches(m: array2<int>, d0: seq<int>, seeds: seq<int>, d: seq<int>,
                           out: seq<int>, cur: int, e: seq<int>)
    requires |d0| == |d|
    requires forall v :: 0 <= v < |d| ==> d[v] == d0[v] - CountFrom(m, out, v)
    requires e == seeds + Batches(m, d0, out) && |e| > |out|
    requires forall k :: 0 <= k < |out| ==> PushedBeforeTurn(m, d0, seeds, out, k)
    ensures e + Released(m, cur, d, |d|) == seeds + Batches(m, d0, out + [cur])
    ensures forall k :: 0 <= k < |out| + 1 ==> PushedBeforeTurn(m, d0, seeds, out + [cur], k)
  {
    BatchesStep(m, d0, d, out, cur);
    ConcatAssoc(seeds, Batches(m, d0, out), Released(m, cur, d, |d|));
    TurnsExtend(m, d0, seeds, out, cur);
  }

  /** If out has pushed past its own length, appending any node keeps every turn pushed in time. */
  lemma TurnsExtend(m: array2<int>, d0: seq<int>, seeds: seq<int>, out: seq<int>, cur: int)
    requires |seeds + Batches(m, d0, out)| > |out|
    requires forall k :: 0 <= k < |out| ==> PushedBeforeTurn(m, d0, seeds, out, k)
    ensures forall k :: 0 <= k < |out| + 1 ==> PushedBeforeTurn(m, d0, seeds, out + [cur], k)
  {
    var out' := out + [cur];
    forall k | 0 <= k < |out'|
      ensures PushedBeforeTurn(m, d0, seeds, out', k)
    {
      if k < |out| {
        assert PushedBeforeTurn(m, d0, seeds, out, k);
        assert out'[..k] == out[..k];
      } else {
        assert out'[..k] == out;
      }
    }
  }

  /** Emitting cur appends the batch it releases under the counters reached after out. */
  lemma BatchesStep(m: array2<int>, d0: seq<int>, d: seq<int>, out: seq<int>, cur: int)
    requires |d0| == |d|
    requires forall v :: 0 <= v < |d| ==> d[v] == d0[v] - CountFrom(m, out, v)
    ensures Batches(m, d0, out + [cur]) == Batches(m, d0, out) + Released(m, cur, d, |d|)
  {
    assert d == CountersAfter(m, d0, out);
    assert (out + [cur])[..|out|] == out;
  }

  /**
   * When the queue is empty the result is the whole push history, and the
   * theorems about Kahn's algorithm apply to it.
   */
  lemma DrainFinished(m: array2<int>, d0: seq<int>, seeds: seq<int>, d: seq<int>, out: seq<int>, e: seq<int>)
    requires DrainInv(m, d0, seeds, d, out, [], [], e)
    requires seeds == ZerosIn(d0, 0, |d0|)
    ensures out == e && Distinct(out) && InRange(out, |d|) && |out| <= |d|
    ensures seeds <= out
    ensures (forall v :: 0 <= v < |d| ==> d0[v] != 0) ==> out == []
    ensures CountsPreds(m, d0) ==> PredecessorsFirst(m, out)
    ensures CountsPreds(m, d0) ==> (Acyclic(m) <==> |out| == |d| && forall v :: 0 <= v < |d| ==> v in out)
    ensures IsSerialOrder(m, d0, out)
  {
    assert out + [] + [] == out;
    DistinctInRangeBound(out, |d|);
    ZerosInMembers(d0, 0, |d0|);
    if seeds != [] {
      assert seeds[0] in seeds;
    }
    if CountsPreds(m, d0) {
      BlockedNodesImplyCycle(m, d0, d, out);
      if |out| == |d| && forall v :: 0 <= v < |d| ==> v in out {
        OrderedImpliesAcyclic(m, out);
      }
    }
  }

  /**
   * The counters after the nodes of s have been emitted from counters d0:
   * each has dropped once per emitted predecessor.
   */
  ghost function CountersAfter(m: array2<int>, d0: seq<int>, s: seq<int>): seq<int>
    reads m
  {
    seq(|d0|, v requires 0 <= v < |d0| reads m => d0[v] - CountFrom(m, s, v))
  }

  /**
   * What emitting the nodes of s one after the other pushes: for each, the
   * successors it releases under the counters of that turn, in emission
   * order.
   */
  ghost function Batches(m: array2<int>, d0: seq<int>, s: seq<int>): seq<int>
    reads m
  {
    if s == [] then []
    else Batches(m, d0, s[..|s| - 1]) + Released(m, s[|s| - 1], CountersAfter(m, d0, s[..|s| - 1]), |d0|)
  }

  /**
   * s is the output of the serial FIFO run from counters d0: it is the
   * ascending seeds followed by the batch released by each of its own
   * nodes, and each of its nodes had been pushed before its turn came.
   */
  ghost predicate IsSerialOrder(m: array2<int>, d0: seq<int>, s: seq<int>)
    reads m
  {
    && s == ZerosIn(d0, 0, |d0|) + Batches(m, d0, s)
    && forall k :: 0 <= k < |s| ==> PushedBeforeTurn(m, d0, ZerosIn(d0, 0, |d0|), s, k)
  }

  /** When the node at position k of s is popped, what was pushed so far reaches past position k. */
  ghost predicate PushedBeforeTurn(m: array2<int>, d0: seq<int>, seeds: seq<int>, s: seq<int>, k: nat)
    requires k <= |s|
    reads m
  {
    |seeds + Batches(m, d0, s[..k])| > k
  }

  /** The batches of a prefix of s are a prefix of the batches of s. */
  lemma {:induction false} BatchesPrefix(m: array2<int>, d0: seq<int>, s: seq<int>, k: nat)
    requires k <= |s|
    ensures Batches(m, d0, s[..k]) <= Batches(m, d0, s)
    decreases |s| - k
  {
    if k < |s| {
      var t := s[..|s| - 1];
      assert t[..k] == s[..k];
      BatchesPrefix(m, d0, t, k);
      assert s[..|s|] == s;
    } else {
      assert s[..k] == s;
    }
  }

  /** In the serial order, the node at position k is read off what the first k nodes pushed. */
  lemma NextFromPrefix(m: array2<int>, d0: seq<int>, s: seq<int>, k: nat)
    requires IsSerialOrder(m, d0, s) && k < |s|
    ensures PushedBeforeTurn(m, d0, ZerosIn(d0, 0, |d0|), s, k)
    ensures s[k] == (ZerosIn(d0, 0, |d0|) + Batches(m, d0, s[..k]))[k]
  {
    BatchesPrefix(m, d0, s, k);
  }

  /**
   * The run does not stop after a proper prefix p of a serial order: what p
   * pushes reaches past it.
   */
  lemma ProperPrefixPushesMore(m: array2<int>, d0: seq<int>, s: seq<int>, p: seq<int>)
    requires IsSerialOrder(m, d0, s) && p < s
    ensures |ZerosIn(d0, 0, |d0|) + Batches(m, d0, p)| > |p|
  {
    NextFromPrefix(m, d0, s, |p|);
    assert s[..|p|] == p;
  }

  /** Two serial orders from the same matrix and counters agree on their first k nodes. */
  lemma {:induction false} SerialOrdersAgree(m: array2<int>, d0: seq<int>, s: seq<int>, t: seq<int>, k: nat)
    requires IsSerialOrder(m, d0, s) && IsSerialOrder(m, d0, t)
    requires k <= |s| && k <= |t|
    ensures s[..k] == t[..k]
    decreases k
  {
    if k > 0 {
      SerialOrdersAgree(m, d0, s, t, k - 1);
      SameNext(m, d0, s, t, k - 1);
      assert s[..k] == s[..k - 1] + [s[k - 1]];
      assert t[..k] == t[..k - 1] + [t[k - 1]];
    }
  }

  /** Serial orders that agree before position k agree at k. */
  lemma SameNext(m: array2<int>, d0: seq<int>, s: seq<int>, t: seq<int>, k: nat)
    requires IsSerialOrder(m, d0, s) && IsSerialOrder(m, d0, t)
    requires k < |s| && k < |t| && s[..k] == t[..k]
    ensures s[k] == t[k]
  {
    NextFromPrefix(m, d0, s, k);
    NextFromPrefix(m, d0, t, k);
  }

  /**
   * The serial order is determined by the matrix and the starting counters:
   * the run is deterministic.
   */
  lemma SerialOrderUnique(m: array2<int>, d0: seq<int>, s: seq<int>, t: seq<int>)
    requires IsSerialOrder(m, d0, s) && IsSerialOrder(m, d0, t)
    ensures s == t
  {
    SerialOrderNotShorter(m, d0, s, t);
    SerialOrderNotShorter(m, d0, t, s);
    SerialOrdersAgree(m, d0, s, t, |s|);
    assert s == s[..|s|] && t == t[..|t|];
  }

  /** A serial order is never a proper prefix of another from the same counters. */
  lemma SerialOrderNotShorter(m: array2<int>, d0: seq<int>, s: seq<int>, t: seq<int>)
    requires IsSerialOrder(m, d0, s) && IsSerialOrder(m, d0, t)
    ensures |t| <= |s|
  {
    if |s| < |t| {
      SerialOrdersAgree(m, d0, s, t, |s|);
      assert s == s[..|s|];
      ProperPrefixPushesMore(m, d0, t, s);
      assert false;
    }
  }

  /**
   * The bookkeeping that makes each node enter the queue at most once, for
   * counters d and the push history e: no node is pushed twice, a pushed
   * node's counter is at most zero, an unpushed node's counter is not zero.
   */
  ghost predicate PushedOnce(d: seq<int>, e: seq<int>)
  {
    && Distinct(e)
    && InRange(e, |d|)
    && (forall v :: 0 <= v < |d| && v in e ==> d[v] <= 0)
    && (forall v :: 0 <= v < |d| && v !in e ==> d[v] != 0)
  }

  /**
   * Decrementing a counter keeps the bookkeeping, provided the node is
   * pushed exactly when its counter has just reached zero.
   */
  lemma DecrementKeepsPushedOnce(d: seq<int>, e: seq<int>, i: int)
    requires PushedOnce(d, e) && 0 <= i < |d|
    ensures d[i] - 1 == 0 ==> i !in e && PushedOnce(d[i := d[i] - 1], e + [i])
    ensures d[i] - 1 != 0 ==> PushedOnce(d[i := d[i] - 1], e)
  {
    if d[i] - 1 == 0 {
      DistinctSnoc(e, i);
    }
  }

  /**
   * Appending a node all of whose predecessors are already in s keeps s
   * predecessors-first.
   */
  lemma AppendReady(m: array2<int>, s: seq<int>, x: int)
    requires PredecessorsFirst(m, s)
    requires forall p :: Edge(m, p, x) ==> p in s
    ensures PredecessorsFirst(m, s + [x])
  {
    forall b, p | 0 <= b < |s| + 1 && Edge(m, p, (s + [x])[b])
      ensures p in (s + [x])[..b]
    {
      if b < |s| {
        assert (s + [x])[..b] == s[..b];
      } else {
        assert (s + [x])[..b] == s;
      }
    }
  }

  /** The counters d after the successors of cur below hi have each dropped by one. */
  ghost function Decremented(m: array2<int>, cur: int, d: seq<int>, hi: int): (r: seq<int>)
    requires 0 <= hi <= |d|
    reads m
    ensures |r| == |d|
    decreases hi
  {
    if hi == 0 then d
    else Decremented(m, cur, d, hi - 1)[hi - 1 := d[hi - 1] - (if Edge(m, cur, hi - 1) then 1 else 0)]
  }

  /** Exactly the counters of the successors of cur below hi have dropped, each by one. */
  lemma {:induction false} DecrementedValues(m: array2<int>, cur: int, d: seq<int>, hi: int)
    requires 0 <= hi <= |d|
    ensures forall v :: 0 <= v < |d| ==> Decremented(m, cur, d, hi)[v] == d[v] - (if v < hi && Edge(m, cur, v) then 1 else 0)
    decreases hi
  {
    if hi > 0 {
      DecrementedValues(m, cur, d, hi - 1);
    }
  }

  /** How one step of the inner loop extends Decremented and Released. */
  lemma ReleaseStep(m: array2<int>, cur: int, d: seq<int>, i: int)
    requires 0 <= i < |d|
    ensures Decremented(m, cur, d, i)[i] == d[i]
    ensures Decremented(m, cur, d, i + 1) == Decremented(m, cur, d, i)[i := d[i] - (if Edge(m, cur, i) then 1 else 0)]
    ensures Released(m, cur, d, i + 1) == Released(m, cur, d, i) + (if Edge(m, cur, i) && d[i] == 1 then [i] else [])
  {
    DecrementedValues(m, cur, d, i);
  }

  /**
   * The successors v of cur below hi whose counter in d is 1, in ascending
   * order: the nodes that releasing cur makes ready.
   */
  ghost function Released(m: array2<int>, cur: int, d: seq<int>, hi: int): seq<int>
    requires 0 <= hi <= |d|
    reads m
    decreases hi
  {
    if hi == 0 then []
    else Released(m, cur, d, hi - 1) + (if Edge(m, cur, hi - 1) && d[hi - 1] == 1 then [hi - 1] else [])
  }

  /**
   * Releasing cur makes ready exactly its successors below hi whose counter
   * was 1, in strictly ascending order.
   */
  lemma {:induction false} ReleasedMembers(m: array2<int>, cur: int, d: seq<int>, hi: int)
    requires 0 <= hi <= |d|
    ensures forall v :: v in Released(m, cur, d, hi) <==> 0 <= v < hi && Edge(m, cur, v) && d[v] == 1
    ensures forall a, b :: 0 <= a < b < |Released(m, cur, d, hi)| ==> Released(m, cur, d, hi)[a] < Released(m, cur, d, hi)[b]
    ensures forall k :: 0 <= k < |Released(m, cur, d, hi)| ==> 0 <= Released(m, cur, d, hi)[k] < hi
    decreases hi
  {
    if hi > 0 {
      ReleasedMembers(m, cur, d, hi - 1);
    }
  }

  /**
   * The 3-cycle 0 -> 1 -> 2 -> 0: no node starts with a zero counter, so
   * seeding pushes nothing and nothing is emitted.
   */
  method RingExample() returns (emitted: nat)
    ensures emitted == 0
  {
    var s := BuildRing();
    s.CalculateTopology();
    emitted := s.topoIndex;
  }

  /** initialize on the ring's three records: every counter starts at 1. */
  method BuildRing() returns (s: Sorter)
    ensures fresh(s) && fresh(s.deps) && fresh(s.topo)
    ensures s.Valid() && s.n == 3 && s.queue == [] && s.enqueued == []
    ensures s.deps[..] == [1, 1, 1]
  {
    var edges: seq<(int, int)> := [(0, 1), (1, 2), (2, 0)];
    s := new Sorter(3, edges);
    RingCounts(edges);
    assert s.deps[..] == [s.deps[0], s.deps[1], s.deps[2]];
  }

  /** Each node of the ring is the target of exactly one record. */
  lemma RingCounts(edges: seq<(int, int)>)
    requires edges == [(0, 1), (1, 2), (2, 0)]
    ensures CountTargets(edges, 0) == 1 && CountTargets(edges, 1) == 1 && CountTargets(edges, 2) == 1
  {
    var one: seq<(int, int)> := [(0, 1)];
    assert |one[..0]| == 0;
    assert edges[..2] == one + [(1, 2)] && edges[..2][..1] == one;
    assert CountTargets(one, 0) == 0 && CountTargets(one, 1) == 1 && CountTargets(one, 2) == 0;
    assert CountTargets(edges[..2], 0) == 0 && CountTargets(edges[..2], 1) == 1 && CountTargets(edges[..2], 2) == 1;
  }

  /** A single node without edges is emitted on its own. */
  method SingletonExample() returns (order: seq<int>)
    ensures order == [0]
  {
    var s := new Sorter(1, []);
    ghost var d := s.deps[..];
    assert d == [0];
    assert ZerosIn(d, 0, 1) == [0];
    s.CalculateTopology();
    order := s.topo[..s.topoIndex];
  }

  /**
   * The diamond 0 -> 1, 0 -> 2, 1 -> 3, 2 -> 3: the run emits 0, releases 1
   * and then 2 in ascending order, emits them in that order, and 2 releases
   * 3 last.
   */
  method DiamondExample() returns (order: seq<int>)
    ensures order == [0, 1, 2, 3]
  {
    var edges: seq<(int, int)> := [(0, 1), (0, 2), (1, 3), (2, 3)];
    var s := BuildDiamond();
    ghost var d0 := s.deps[..];
    DiamondIsAcyclic(s.matrix, edges);
    s.CalculateTopology();
    order := s.topo[..s.topoIndex];
    DiamondOrders(s.matrix, edges, order);
    DiamondSerialOrder(s.matrix, edges, d0, order);
  }

  /** initialize on the diamond's four records. */
  method BuildDiamond() returns (s: Sorter)
    ensures fresh(s) && fresh(s.deps) && fresh(s.topo)
    ensures s.Valid() && s.n == 4 && s.queue == [] && s.enqueued == []
    ensures HoldsExactly(s.matrix, [(0, 1), (0, 2), (1, 3), (2, 3)])
    ensures s.deps[..] == [0, 1, 1, 2] && CountsPreds(s.matrix, s.deps[..])
  {
    var edges: seq<(int, int)> := [(0, 1), (0, 2), (1, 3), (2, 3)];
    assert NoRepeatedRecords(edges);
    s := new Sorter(4, edges);
    DiamondCounts(edges);
    assert s.deps[..] == [s.deps[0], s.deps[1], s.deps[2], s.deps[3]];
  }

  /** The in-degree counters of the diamond: 0, 1, 1, 2. */
  lemma DiamondCounts(edges: seq<(int, int)>)
    requires edges == [(0, 1), (0, 2), (1, 3), (2, 3)]
    ensures CountTargets(edges, 0) == 0 && CountTargets(edges, 1) == 1
    ensures CountTargets(edges, 2) == 1 && CountTargets(edges, 3) == 2
  {
    var e1: seq<(int, int)> := [(0, 1)];
    var e2: seq<(int, int)> := [(0, 1), (0, 2)];
    var e3: seq<(int, int)> := [(0, 1), (0, 2), (1, 3)];
    assert |e1[..0]| == 0;
    assert e2[..1] == e1 && e3[..2] == e2 && edges[..3] == e3;
    assert CountTargets(e1, 0) == 0 && CountTargets(e1, 1) == 1 && CountTargets(e1, 2) == 0 && CountTargets(e1, 3) == 0;
    assert CountTargets(e2, 0) == 0 && CountTargets(e2, 1) == 1 && CountTargets(e2, 2) == 1 && CountTargets(e2, 3) == 0;
    assert CountTargets(e3, 0) == 0 && CountTargets(e3, 1) == 1 && CountTargets(e3, 2) == 1 && CountTargets(e3, 3) == 1;
  }

  /**
   * Of the two predecessors-first orders of the diamond, the serial run
   * produces 0, 1, 2, 3: emitting 0 pushes 1 before 2.
   */
  lemma DiamondSerialOrder(m: array2<int>, edges: seq<(int, int)>, d0: seq<int>, t: seq<int>)
    requires edges == [(0, 1), (0, 2), (1, 3), (2, 3)] && HoldsExactly(m, edges)
    requires d0 == [0, 1, 1, 2] && IsSerialOrder(m, d0, t)
    requires t == [0, 1, 2, 3] || t == [0, 2, 1, 3]
    ensures t == [0, 1, 2, 3]
  {
    assert ZerosIn(d0, 0, 1) == [0];
    assert ZerosIn(d0, 0, 4) == [0];
    assert CountersAfter(m, d0, []) == d0;
    assert !Edge(m, 0, 0) && Edge(m, 0, 1) && Edge(m, 0, 2) && !Edge(m, 0, 3);
    assert Released(m, 0, d0, 0) == [];
    assert Released(m, 0, d0, 1) == [];
    assert Released(m, 0, d0, 2) == [1];
    assert Released(m, 0, d0, 3) == [1, 2];
    assert Released(m, 0, d0, 4) == [1, 2];
    assert t[..1] == [0] && [0][..0] == [];
    assert Batches(m, d0, t[..1]) == [1, 2];
    NextFromPrefix(m, d0, t, 1);
  }

  /** m holds 1 exactly at the recorded pairs of a 4-node graph. */
  ghost predicate HoldsExactly(m: array2<int>, edges: seq<(int, int)>)
    reads m
  {
    m.Length0 == 4 && m.Length1 == 4 &&
    forall i, j :: 0 <= i < 4 && 0 <= j < 4 ==> m[i, j] == if (i, j) in edges then 1 else 0
  }

  /** The diamond has no cycle: 0, 1, 2, 3 lists it predecessors-first. */
  lemma DiamondIsAcyclic(m: array2<int>, edges: seq<(int, int)>)
    requires edges == [(0, 1), (0, 2), (1, 3), (2, 3)] && HoldsExactly(m, edges)
    ensures Acyclic(m)
  {
    var t := [0, 1, 2, 3];
    forall b, p | 0 <= b < 4 && Edge(m, p, t[b])
      ensures p in t[..b]
    {
      assert (p, t[b]) in edges;
      assert 0 <= p < b;
      assert t[..b][p] == p;
    }
    OrderedImpliesAcyclic(m, t);
  }

  /**
   * The only predecessors-first orders of all four diamond nodes: 0 first,
   * 3 last, 1 and 2 between in either order.
   */
  lemma DiamondOrders(m: array2<int>, edges: seq<(int, int)>, t: seq<int>)
    requires edges == [(0, 1), (0, 2), (1, 3), (2, 3)] && HoldsExactly(m, edges)
    requires |t| == 4 && Distinct(t) && InRange(t, 4) && (forall v :: 0 <= v < 4 ==> v in t)
    requires PredecessorsFirst(m, t)
    ensures t == [0, 1, 2, 3] || t == [0, 2, 1, 3]
  {
    assert Edge(m, 0, 1) && Edge(m, 0, 2) && Edge(m, 1, 3) && Edge(m, 2, 3);
    var p0, p1, p2, p3 := PositionOf(t, 0), PositionOf(t, 1), PositionOf(t, 2), PositionOf(t, 3);
    EdgesGoForward(m, t);
    assert Edge(m, t[p0], t[p1]) && Edge(m, t[p0], t[p2]) && Edge(m, t[p1], t[p3]) && Edge(m, t[p2], t[p3]);
    assert p0 < p1 && p0 < p2 && p1 < p3 && p2 < p3 && p1 != p2;
    if p1 < p2 {
      assert p0 == 0 && p1 == 1 && p2 == 2 && p3 == 3;
      assert t == [t[0], t[1], t[2], t[3]];
    } else {
      assert p0 == 0 && p2 == 1 && p1 == 2 && p3 == 3;
      assert t == [t[0], t[1], t[2], t[3]];
    }
  }
}
