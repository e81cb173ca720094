# Kahn topological sort over a dense adjacency matrix

The program reads a directed graph of `nodes_count` nodes as edge records `i j w`.
From these records it builds an n-by-n `matrix`, in which 1 marks the edge i -> j, and the counters `dependencies_matrix`, where counter j is the number of records that point into j.
It then computes a topological order into `topology_matrix` with Kahn's algorithm.
There are two versions:

- **Serial (`topology_shorting.c`).** A global linked FIFO queue with `head` and `tail` pointers is seeded with every node whose counter is zero, in ascending order. The queue is then drained. The popped node releases its successors: each successor's counter drops by one, and a successor whose counter reaches zero is pushed. The popped node is written at `topology_matrix_index`, which then advances.
- **Threaded (`topology_shorting_parallel.c`).** The queue code takes the head and tail pointers as parameters, so the shared queue and each worker's local queue use the same code. In the seeding phase, `threads_count` workers split the nodes statically. Worker `id` scans the block `[id * interval, id * interval + interval)`, where `interval = nodes_count / threads_count`. Each worker with `id < remainder`, where `remainder = nodes_count % threads_count`, also takes node `nodes_count - id - 1`. A worker collects its zero-counter nodes in a local queue and, holding the mutex, moves that queue into the shared queue.

The model has six modules:

- `NodeSeqs` (`node_seqs.dfy`): sequences of node indices. It covers repetition-freedom, the ascending zero-counter scan `ZerosIn` and pigeonhole bounds.
- `GraphStore` (`graph_store.dfy`): the matrix as `array2<int>`, predecessors, cycles, and the graph-theoretic half of Kahn's correctness argument. It also covers the counting of edge records.
- `SerialSort` (`serial_sort.dfy`): class `Sorter`. It holds the serial program's globals as fields: the queue as a `seq<int>` from head to tail, the matrix, the counters, the result array and its index. Its methods are `initialize`, `push_value`, `pop_value` and `calculate_topology`, the last split into its seeding scan, its inner release loop and its drain loop. Pure lemmas carry the drain loop's invariant from turn to turn.
- `Fifo` (`fifo.dfy`): class `Queue`, the head/tail pair passed to the parameterised `push_value`/`pop_value`.
- `Partition` (`partition.dfy`): the index arithmetic of `initialize_queue`, what one worker seeds, and what the shared queue holds after the workers have run.
- `ParallelSeeding` (`parallel_seeding.dfy`): class `Seeder`. It models `initialize_queue` as a method, plus the transfer of a local queue into the shared one and the seeding phase with the workers run one after another. It also models the `threads_count` check of `read_parameters`.

The central results are in the contract of `SerialSort.Sorter.CalculateTopology`, for any initial counters:

- no node is pushed twice;
- the result never outgrows the array;
- the result is the push history in order, starting with the initially ready nodes;
- the result is exactly the serial run's order (`IsSerialOrder`): the ready nodes in ascending order, followed by the batch each emitted node released, in ascending order, in the order the nodes were emitted; `SerialOrderUnique` shows that this fixes the result completely;
- if no counter starts at zero, nothing is emitted.

When the counters are the in-degrees of the matrix, which `initialize` produces from records without repeats:

- every emitted node comes after all its predecessors;
- all `nodes_count` nodes are emitted exactly when the graph is acyclic.

For the threaded seeding, `ParallelSeeding.Seeder.SeedAll` proves the following. Once every worker has run, in any order, the shared queue holds each zero-counter node exactly once and nothing else.

The code gives the remainder nodes to the workers with the smallest ids (`id < remainder`, `topology_shorting_parallel.c:220`), and they take nodes from the end of the range.

## Model

| member | source | states |
|---|---|---|
| SerialSort.Sorter.constructor | topology_shorting.c:85-115 | after the records are read, matrix[i][j] is 1 exactly for the recorded pairs and 0 elsewhere; counter j is the number of records into j; when no record repeats, every counter equals the node's number of predecessors in the matrix |
| SerialSort.Sorter.RecordEdge | topology_shorting.c:109-110 | one record sets matrix[i][j] to 1 and raises counter j by one; no other cell or counter changes |
| GraphStore.CountTargets | topology_shorting.c:106-112 | how far the record loop raises counter j: one per record into j; `DistinctRecordsCount` relates it to the recorded sources |
| GraphStore.DistinctRecordsCount | topology_shorting.c:106-112 | without repeated records, the count of records into j equals the number of distinct sources recorded for j |
| SerialSort.Sorter.PushValue | topology_shorting.c:38-56 | the value is appended at the tail; an empty queue becomes exactly that value; earlier contents are kept |
| SerialSort.Sorter.PopValue | topology_shorting.c:64-79 | an empty queue yields -1 and stays empty; otherwise the oldest value is returned and only it is removed; removing the last value empties the queue |
| SerialSort.Sorter.SeedQueue | topology_shorting.c:175-184 | seeding pushes exactly the nodes with a zero counter, in ascending order, and changes no counter |
| NodeSeqs.ZerosIn | topology_shorting.c:176-184 | the nodes of a range with a zero counter, in ascending order, as the seeding scan pushes them; `ZerosInMembers` states its properties |
| NodeSeqs.ZerosInMembers | topology_shorting.c:176-184 | the seeding scan of a range yields exactly its zero-counter nodes, each once, strictly ascending |
| SerialSort.Sorter.ReleaseSuccessors | topology_shorting.c:189-204 | the counter of every successor of the popped node drops by one and no other counter changes; the pushed nodes are exactly the successors whose counter was 1, in ascending order; each node is still pushed at most once |
| SerialSort.Sorter.ReleaseOne | topology_shorting.c:190-203 | one candidate i: if cur -> i, counter i drops by one and i is pushed exactly when it reaches zero; nothing else changes |
| SerialSort.DecrementKeepsPushedOnce | topology_shorting.c:195-203 | decrementing a counter, and pushing its node exactly when it reaches zero, keeps every node pushed at most once |
| SerialSort.Decremented | topology_shorting.c:189-197 | the counters after the inner loop has scanned up to hi; `DecrementedValues` states which have dropped |
| SerialSort.Released | topology_shorting.c:189-204 | the nodes the inner loop pushes up to hi, in scan order; `ReleasedMembers` states which they are |
| SerialSort.DecrementedValues | topology_shorting.c:189-197 | after the inner loop has scanned up to hi, exactly the counters of cur's successors below hi have dropped, each by one |
| SerialSort.ReleasedMembers | topology_shorting.c:195-203 | the nodes one release makes ready are exactly the successors whose counter was 1, strictly ascending |
| SerialSort.ReleaseStep | topology_shorting.c:189-204 | loop-step helper for the inner loop: the counter of candidate i is still untouched before step i; the other two clauses unfold `Decremented` and `Released` by one step for use as loop invariants |
| SerialSort.Sorter.ProcessNode | topology_shorting.c:189-207 | one drain turn writes the popped node at topology_matrix_index, advances the index by exactly one, pushes the released successors and keeps the drain invariant |
| SerialSort.Sorter.TakeNext | topology_shorting.c:187-209 | the pop before each turn returns -1 exactly when the queue is empty, otherwise makes the head the node in hand, and keeps the drain invariant |
| SerialSort.Sorter.Drain | topology_shorting.c:186-210 | the drain loop terminates with an empty queue and keeps the drain invariant |
| SerialSort.SeedingStartsDrain | topology_shorting.c:174-187 | after seeding, the drain invariant holds; with in-degree counters, every seed has no predecessor |
| SerialSort.PopKeepsDrainInv | topology_shorting.c:209 | popping the head of a non-empty queue keeps the drain invariant with the head as the node in hand |
| SerialSort.StepKeepsDrainInv | topology_shorting.c:189-207 | releasing cur's successors and emitting cur keeps the drain invariant: the result, the queue and the push history stay in step, each counter is its start value minus the emitted predecessors, and with in-degree counters the result stays predecessors-first and queued nodes have all their predecessors emitted |
| SerialSort.AppendReady | topology_shorting.c:206-207 | appending a node whose predecessors are all in the result keeps the result predecessors-first |
| GraphStore.CountFromBound | topology_shorting.c:195-198 | the number of emitted predecessors of a node never exceeds its in-degree, and equals it exactly when all its predecessors have been emitted; so a counter that starts at the in-degree reaches zero exactly then |
| SerialSort.DrainFinished | topology_shorting.c:188-210 | once the queue is empty, the result is the whole push history and contains the seeds; it is the serial FIFO order of the starting counters; without seeds it is empty; with in-degree counters it is predecessors-first, and it holds all nodes exactly when the graph is acyclic |
| SerialSort.CountersAfter | topology_shorting.c:195 | the counters once the nodes of a prefix have been emitted: each start value minus the number of emitted predecessors; `StepKeepsDrainInv` keeps the real counters equal to it |
| SerialSort.Batches | topology_shorting.c:189-204 | what emitting a sequence of nodes pushes: for each node in turn, the successors it releases under the counters of that turn; `BatchesStep` states how one more node extends it |
| SerialSort.IsSerialOrder | topology_shorting.c:171-210 | the output of the serial FIFO run: the ascending seeds followed by each emitted node's released batch, each node having been pushed before its turn; `SerialOrderUnique` shows that it determines the output |
| SerialSort.BatchesStep | topology_shorting.c:189-207 | emitting one more node appends exactly the batch it releases under the counters reached so far |
| SerialSort.StepExtendsBatches | topology_shorting.c:189-209 | after one drain turn the push history is still the seeds followed by the emitted nodes' batches, and every emitted node was pushed before it was popped |
| SerialSort.NextFromPrefix | topology_shorting.c:187-209 | in the serial order, the node at position k is the k-th value pushed by the seeds and the first k emitted nodes: FIFO order |
| SerialSort.SerialOrderUnique | topology_shorting.c:171-210 | two serial orders from the same matrix and starting counters are equal: the run is deterministic |
| GraphStore.BlockedNodesImplyCycle | topology_shorting.c:188-210 | if every node not emitted still has a non-zero counter when the queue runs dry, then either all nodes were emitted or the graph has a cycle |
| GraphStore.NoSourceMeansCycle | topology_shorting.c:3-4 | a non-empty set of nodes in which every node has a predecessor inside the set contains a cycle |
| GraphStore.OrderedImpliesAcyclic | topology_shorting.c:3-4 | a graph whose nodes can all be listed predecessors-first has no cycle |
| GraphStore.EdgesGoForward | topology_shorting.c:3-4 | in a predecessors-first order without repeats, every edge i -> j has i at a smaller position than j |
| SerialSort.EdgesGoForwardIn | topology_shorting.c:206-207 | the same, read off the filled prefix of topology_matrix |
| NodeSeqs.DistinctInRangeBound | topology_shorting.c:206-207 | a repeat-free list of node indices has at most nodes_count entries, and exactly nodes_count when it names every node, so topology_matrix_index never exceeds nodes_count |
| SerialSort.Sorter.CalculateTopology | topology_shorting.c:171-214 | each node is pushed at most once; index <= nodes_count; the result is repeat-free, in range and in push order, starting with the initially ready nodes; it is the serial FIFO order `IsSerialOrder` of the starting counters, which `SerialOrderUnique` shows to be unique; no ready node means an empty result; with in-degree counters, every edge points forward in the result, which holds all nodes exactly when the graph is acyclic |
| SerialSort.RingExample | topology_shorting.c:176-188 | for the 3-cycle 0 -> 1 -> 2 -> 0 nothing is emitted |
| SerialSort.SingletonExample | topology_shorting.c:171-210 | a single isolated node is emitted alone |
| SerialSort.DiamondExample | topology_shorting.c:171-210 | for the diamond 0 -> 1, 0 -> 2, 1 -> 3, 2 -> 3 the result is exactly 0 1 2 3 |
| SerialSort.BuildDiamond | topology_shorting.c:85-115 | reading the diamond's four records gives the matrix holding exactly those edges and the counters 0 1 1 2, which are the in-degrees |
| SerialSort.DiamondCounts | topology_shorting.c:106-112 | the diamond's records point 0, 1, 1 and 2 times into nodes 0, 1, 2 and 3 |
| SerialSort.DiamondSerialOrder | topology_shorting.c:186-209 | of the diamond's two predecessors-first orders, the serial run yields 0 1 2 3: emitting 0 pushes 1 before 2 |
| SerialSort.BuildRing | topology_shorting.c:85-115 | reading the ring's three records sets every counter to 1 |
| SerialSort.RingCounts | topology_shorting.c:106-112 | each node of the ring is the target of exactly one record |
| SerialSort.DiamondIsAcyclic | topology_shorting.c:171-210 | the diamond graph built from its records has no cycle |
| SerialSort.DiamondOrders | topology_shorting.c:171-210 | the only predecessors-first orders of all four diamond nodes are 0 1 2 3 and 0 2 1 3 |
| Fifo.Queue.constructor | topology_shorting_parallel.c:199-200 | a new local queue is empty |
| Fifo.Queue.IsEmpty | topology_shorting_parallel.c:231-237 | the head pointer is NULL exactly when the queue holds no value |
| Fifo.Queue.Push | topology_shorting_parallel.c:43-61 | the value is appended at the tail of this queue only; an empty queue becomes exactly that value; earlier contents are kept |
| Fifo.Queue.Pop | topology_shorting_parallel.c:72-86 | an empty queue yields -1 and stays empty; otherwise the head value is returned and only it is removed; removing the last value empties the queue |
| ParallelSeeding.AcceptThreadsCount | topology_shorting_parallel.c:151-156 | a threads_count of zero or less is refused; any other count is accepted unchanged |
| ParallelSeeding.AcceptedCountSplitsNodes | topology_shorting_parallel.c:151-156 | for an accepted threads_count, every node has exactly one worker among the threads |
| Partition.Interval | topology_shorting_parallel.c:202 | interval = nodes_count / threads_count, truncating; `DivSplit` states what it satisfies |
| Partition.Remainder | topology_shorting_parallel.c:203 | remainder = nodes_count % threads_count; `DivSplit` states what it satisfies |
| Partition.DivSplit | topology_shorting_parallel.c:202-203 | nodes_count = threads_count * interval + remainder, with remainder < threads_count |
| Partition.BlockStart | topology_shorting_parallel.c:204 | start = id * interval; `BlockInRange` bounds the block |
| Partition.BlockEnd | topology_shorting_parallel.c:205 | finish = start + interval; `BlockInRange` bounds the block |
| Partition.Assigned | topology_shorting_parallel.c:208-221 | worker id handles node v when v is in its block or v is its remainder node; `AssignedToOwnerOnly` shows each node has exactly one such worker |
| Partition.BlockInRange | topology_shorting_parallel.c:202-208 | the block of each worker below threads_count ends within threads_count * interval, which is at most nodes_count |
| Partition.BlocksPartitionPrefix | topology_shorting_parallel.c:202-208 | node v lies in worker id's block exactly when v < threads_count * interval and v / interval = id: the blocks are disjoint and cover that prefix |
| Partition.RemainderNodesAreTail | topology_shorting_parallel.c:220-221 | the nodes nodes_count - id - 1 for id < remainder are exactly [threads_count * interval, nodes_count) |
| Partition.Owner | topology_shorting_parallel.c:202-221 | every node has a worker below threads_count that is responsible for it |
| Partition.AssignedToOwnerOnly | topology_shorting_parallel.c:202-221 | a worker is responsible for a node exactly when it is that node's owner: the blocks and remainder nodes partition [0, nodes_count) |
| Partition.AssignedIsNode | topology_shorting_parallel.c:202-221 | everything a worker is responsible for is a node in [0, nodes_count) |
| Partition.WorkerSeeds | topology_shorting_parallel.c:207-228 | what one worker pushes to its local queue: its block's zero-counter nodes ascending, then its remainder node if ready; `WorkerSeedsMembers` states which nodes these are |
| Partition.WorkerSeedsMembers | topology_shorting_parallel.c:207-228 | a worker's local queue holds exactly the zero-counter nodes it is responsible for, each once |
| Partition.FiveNodesTwoWorkers | topology_shorting_parallel.c:202-228 | with five ready nodes and two workers, worker 0 collects 0 1 4 and worker 1 collects 2 3 |
| Partition.SeedsInOrder | topology_shorting_parallel.c:311-318 | the shared queue after the workers, in the given order, have each transferred their seeds; `SeedsInOrderMembers` states its contents |
| Partition.SeedsInOrderMembers | topology_shorting_parallel.c:311-318 | after a repeat-free run of workers, the shared queue holds exactly the zero-counter nodes those workers own, each once |
| Partition.SharedQueueHoldsEachZeroOnce | topology_shorting_parallel.c:311-318 | after all threads_count workers have run, in any order, the shared queue holds every zero-counter node exactly once and no other node |
| ParallelSeeding.Seeder.InitializeQueue | topology_shorting_parallel.c:196-249 | one worker appends to the shared queue exactly its block's zero-counter nodes in ascending order, then its remainder node if that is ready; nothing is appended when its local queue stays empty |
| ParallelSeeding.Seeder.TransferToShared | topology_shorting_parallel.c:235-246 | the local queue's values are appended to the shared queue in FIFO order and the local queue ends empty |
| ParallelSeeding.Seeder.SeedAll | topology_shorting_parallel.c:311-318 | the workers run one after another leave their seeds in the shared queue in that order; with every worker run once into an empty shared queue, it holds each zero-counter node exactly once and nothing else |

## Left out

- Command line, files and timing are not modelled. This covers `main`, `read_parameters` except the `threads_count` check, `syntax_message`, `write_topology_to_file`, `fopen`/`fscanf`/`fprintf` and `clock`. The records reach the constructor as a sequence of `(i, j)` pairs. The float weight of each record is read and discarded by the source, so the model drops it. The `-1` sentinel that ends the record loop is not modelled.
- Record indices are not bounds-checked in the source. The constructor instead requires every record to lie in `[0, nodes_count)`.
- The parallel `initialize` (`topology_shorting_parallel.c:92-122`) is the same code as the serial one. `SerialSort.Sorter.constructor` models both.
- Allocation failure is not modelled: the `-1` result of `push_value`, the `exit(0)` after it, and the `0` result of `initialize`. Neither is `free`. Linked nodes are represented by sequences, so pointer identity and the release of nodes are not captured.
- Threads are not modelled. This covers `pthread_create`/`pthread_join`, the mutex and `thread_topology_calculation` (`topology_shorting_parallel.c:253-303`). The threaded drain busy-waits on an unsynchronised read of `topology_matrix_index`, and its result depends on interleaving. Only the seeding phase is modelled, with the workers run one after another. Each worker touches the shared queue only inside one locked section, so every interleaving leaves the shared queue as some sequential order does. `SeedAll` takes that order as a parameter; the reduction itself is argued, not proved.
- The source does not check for repeated edge records. With a repeated record a counter exceeds the node's number of predecessors, and that node is never emitted. `CalculateTopology` states its ordering and completeness results only for counters that equal the in-degrees. The constructor guarantees such counters when no record repeats.
- The transfer frees each local node as it advances (`free(thread_head)`). The model represents this by popping the local queue.
