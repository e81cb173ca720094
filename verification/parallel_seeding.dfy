/**
 * The seeding phase of the threaded sorter (initialize_queue), with the
 * workers run one after another: each worker scans its share of the
 * nodes into a local queue, then moves the local queue into the shared
 * queue.
 */
module ParallelSeeding {
  import opened NodeSeqs
  import opened Partition
  import opened Fifo

  datatype Option<T> = None | Some(value: T)

  /**
   * The threads_count check of read_parameters: a count of zero or less is
   * refused before any computation; any other count is kept as it is.
   */
  function AcceptThreadsCount(t: int): (r: Option<nat>)
    ensures r.Some? <==> t >= 1
    ensures r.Some? ==> r.value == t
  {
    if t <= 0 then None else Some(t)
  }

  /**
   * An accepted threads_count splits any number of nodes so that each node
   * has exactly one worker.
   */
  lemma AcceptedCountSplitsNodes(t: int, n: nat, v: int)
    requires AcceptThreadsCount(t).Some? && 0 <= v < n
    ensures var w := AcceptThreadsCount(t).value;
            w >= 1 && Owner(n, w, v) < w &&
            forall id :: 0 <= id < w ==> (Assigned(n, w, id, v) <==> id == Owner(n, w, v))
  {
    var w := AcceptThreadsCount(t).value;
    forall id | 0 <= id < w
      ensures Assigned(n, w, id, v) <==> id == Owner(n, w, v)
    {
      AssignedToOwnerOnly(n, w, id, v);
    }
  }

  class Seeder {
    /** nodes_count */
    const n: nat
    /** threads_count */
    const threadsCount: nat
    /** dependencies_matrix */
    const deps: array<int>
    /** The shared queue, global head and tail. */
    const shared: Queue

    ghost predicate Valid()
      reads this
    {
      threadsCount >= 1 && deps.Length == n
    }

    constructor (deps: array<int>, threadsCount: nat, shared: Queue)
      requires threadsCount >= 1
      ensures Valid() && this.n == deps.Length
      ensures this.deps == deps && this.threadsCount == threadsCount && this.shared == shared
    {
      this.n := deps.Length;
      this.deps := deps;
      this.threadsCount := threadsCount;
      this.shared := shared;
    }

    /**
     * initialize_queue(id): the worker pushes the zero-counter nodes of its
     * block, then its remainder node if it has one with a zero counter, to a
     * fresh local queue, and, unless that stays empty, moves the local queue
     * into the shared queue. The counters do not change.
     */
    method InitializeQueue(id: nat)
      requires Valid() && id < threadsCount
      modifies shared
      ensures shared.items == old(shared.items) + WorkerSeeds(n, threadsCount, id, deps[..])
    {
      var local := new Queue();
      var interval := n / threadsCount;
      var remainder := n % threadsCount;
      var start := id * interval;
      var finish := start + interval;
      BlockInRange(n, threadsCount, id);
      var i := start;
      while i < finish
        invariant start <= i <= finish
        invariant local.items == ZerosIn(deps[..], start, i)
        invariant shared.items == old(shared.items)
      {
        if deps[i] == 0 {
          local.Push(i);
        }
        i := i + 1;
      }
      if id < remainder {
        i := n - id - 1;
        if deps[i] == 0 {
          local.Push(i);
        }
      }
      if local.IsEmpty() {
        return;
      }
      TransferToShared(local);
    }

    /**
     * The locked loop of initialize_queue: the values of the local queue
     * are pushed to the shared queue head first, each node of the local
     * queue being released as it goes, until the local queue is empty.
     */
    method TransferToShared(local: Queue)
      requires local != shared
      modifies local, shared
      ensures shared.items == old(shared.items) + old(local.items)
      ensures local.items == []
    {
      while !local.IsEmpty()
        invariant shared.items + local.items == old(shared.items) + old(local.items)
        decreases |local.items|
      {
        ghost var s, l := shared.items, local.items;
        var v := local.Pop();
        shared.Push(v);
        assert l == [v] + local.items;
        assert shared.items + local.items == s + ([v] + local.items);
      }
    }

    /**
     * The seeding phase with the workers run one after another in the
     * given order.
     */
    method SeedAll(order: seq<nat>)
      requires Valid() && forall k :: 0 <= k < |order| ==> order[k] < threadsCount
      modifies shared
      ensures shared.items == old(shared.items) + SeedsInOrder(n, threadsCount, order, deps[..])
      ensures (old(shared.items) == [] && |order| == threadsCount && forall a, b :: 0 <= a < b < |order| ==> order[a] != order[b]) ==>
                Distinct(shared.items) && forall v :: v in shared.items <==> 0 <= v < n && deps[v] == 0
    {
      var k := 0;
      while k < |order|
        invariant 0 <= k <= |order|
        invariant shared.items == old(shared.items) + SeedsInOrder(n, threadsCount, order[..k], deps[..])
      {
        assert order[..k + 1][..k] == order[..k];
        InitializeQueue(order[k]);
        k := k + 1;
      }
      assert order[..k] == order;
      if |order| == threadsCount && forall a, b :: 0 <= a < b < |order| ==> order[a] != order[b] {
        SharedQueueHoldsEachZeroOnce(n, threadsCount, order, deps[..]);
      }
    }
  }
}
