/**
 * The queue of the threaded sorter: a singly linked list reached through a
 * head and a tail pointer that the caller passes in, so that the same code
 * serves the shared queue and each worker's local queue. A Queue object
 * stands for one such head/tail pair; its contents run from head to tail.
 */
module Fifo {

  class Queue {
    /** The values from head to tail; [] when the head pointer is NULL. */
    var items: seq<int>

    /** A fresh pair of NULL head and tail pointers. */
    constructor ()
      ensures items == []
    {
      items := [];
    }

    /** The head pointer is NULL. */
    predicate IsEmpty()
      reads this
    {
      items == []
    }

    /**
     * push_value(&head, &tail, val): val goes in at the tail; into an empty
     * queue it becomes head and tail. Only this queue changes.
     */
    method Push(val: int)
      modifies this
      ensures items == old(items) + [val]
      ensures old(items) == [] ==> items == [val]
      ensures items[..|old(items)|] == old(items)
    {
      items := items + [val];
    }

    /**
     * pop_value(&head, &tail): -1 on an empty queue, which stays empty;
     * otherwise the head value, which alone is removed. Taking the last
     * value leaves the queue empty.
     */
    method Pop() returns (v: int)
      modifies this
      ensures old(items) == [] ==> v == -1 && items == []
      ensures old(items) != [] ==> v == old(items)[0] && items == old(items)[1..]
      ensures |old(items)| == 1 ==> items == []
    {
      if items == [] {
        return -1;
      }
      v := items[0];
      items := items[1..];
    }
  }
}
