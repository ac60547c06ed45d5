/**
  The event queue between the network thread and the main loop. Its mutex makes each
  method one atomic step. The ghost fields record everything pushed and everything taken.
 */
module EventQueues {
  class EventQueue<T> {
    var queue: seq<T>
    ghost var pushed: seq<T>
    ghost var taken: seq<T>

    ghost predicate Valid()
      reads this
    {
      pushed == taken + queue
    }

    constructor ()
      ensures Valid() && pushed == []
    {
      queue, pushed, taken := [], [], [];
    }

    method Push(element: T)
      requires Valid()
      modifies this
      ensures Valid() && taken == old(taken) && pushed == old(pushed) + [element]
    {
      queue := queue + [element];
      pushed := pushed + [element];
    }

    /** Swaps the elements out. */
    method Empty() returns (outQueue: seq<T>)
      requires Valid()
      modifies this
      ensures Valid() && pushed == old(pushed)
      ensures taken == old(taken) + outQueue == pushed
    {
      outQueue := queue;
      queue := [];
      taken := taken + outQueue;
    }

    method Size() returns (n: nat)
      requires Valid()
      ensures n == |pushed| - |taken|
    {
      n := |queue|;
    }
  }
}
