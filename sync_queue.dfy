/**
 * The FIFO queue wrapper of atomic_queue.cpp, with its mutex taken away.
 *
 * atomic_queue<T> holds a std::queue<T> and a std::mutex; every member takes the
 * lock for the duration of one call.  What remains once the lock is gone is a
 * queue class whose one field, the element sequence, push/emplace/pop change
 * in place.  std::queue's front, back and pop are undefined on an empty queue;
 * here they require a non-empty queue.
 */
module SyncQueue {

  class AtomicQueue<T> {
    /** The std::queue<T> member, head first. */
    var queue: seq<T>

    /** `atomic_queue() = default`: an empty queue. */
    constructor ()
      ensures queue == []
    {
      queue := [];
    }

    /** The head element (returned by value rather than by reference). */
    method Front() returns (x: T)
      requires queue != []
      ensures x == queue[0]
    {
      x := queue[0];
    }

    /** The tail element, the one pushed last. */
    method Back() returns (x: T)
      requires queue != []
      ensures x == queue[|queue| - 1]
    {
      x := queue[|queue| - 1];
    }

    method Empty() returns (b: bool)
      ensures b <==> |queue| == 0
    {
      b := queue == [];
    }

    method Size() returns (n: nat)
      ensures n == |queue|
    {
      n := |queue|;
    }

    /** Appends elem at the tail; the elements already queued are unchanged. */
    method Push(elem: T)
      modifies this
      ensures queue == old(queue) + [elem]
    {
      queue := queue + [elem];
    }

    /**
     * Constructs one element from its arguments and appends it at the tail.
     * The constructor of T that the forwarded arguments select is `make`.
     */
    method Emplace<A>(make: A -> T, arg: A)
      modifies this
      ensures queue == old(queue) + [make(arg)]
    {
      queue := queue + [make(arg)];
    }

    /** Removes the head; the rest keep their order. */
    method Pop()
      requires queue != []
      modifies this
      ensures queue == old(queue)[1..]
    {
      queue := queue[1..];
    }
  }

  /** The integers begin, begin + 1, ..., end - 1 (empty when end <= begin). */
  function Range(begin: int, end: int): (r: seq<int>)
    ensures |r| == if begin < end then end - begin else 0
    ensures forall k :: 0 <= k < |r| ==> r[k] == begin + k
  {
    seq(if begin < end then end - begin else 0, k => begin + k)
  }

  /** Ranges that meet concatenate into one range. */
  lemma RangeConcat(a: int, b: int, c: int)
    requires a <= b <= c
    ensures Range(a, b) + Range(b, c) == Range(a, c)
  {
  }

  /** add_in_queue: pushes begin, ..., end - 1, in that order (the 500 ms pauses are left out). */
  method AddInQueue(q: AtomicQueue<int>, begin: int, end: int)
    modifies q
    ensures q.queue == old(q.queue) + Range(begin, end)
    ensures |q.queue| == |old(q.queue)| + (if begin < end then end - begin else 0)
  {
    var i := begin;
    while i < end
      invariant begin <= i && (i <= end || i == begin)
      invariant q.queue == old(q.queue) + Range(begin, i)
    {
      q.Push(i);
      assert Range(begin, i + 1) == Range(begin, i) + [i];
      i := i + 1;
    }
    assert Range(begin, i) == Range(begin, end);
  }

  /**
   * clear_queue: reports the size, then reads the front and pops until the queue is
   * empty.  What it prints is returned: `size` first, then `drained` in print order.
   */
  method ClearQueue(q: AtomicQueue<int>) returns (size: nat, drained: seq<int>)
    modifies q
    ensures size == |old(q.queue)|
    ensures drained == old(q.queue)
    ensures q.queue == []
  {
    size := q.Size();
    drained := [];
    var empty := q.Empty();
    while !empty
      invariant drained + q.queue == old(q.queue)
      invariant empty <==> q.queue == []
      decreases |q.queue|
    {
      var x := q.Front();
      drained := drained + [x];
      q.Pop();
      empty := q.Empty();
    }
  }

  const Count: int := 10

  /**
   * main, with its three producers run one after the other in the order they are
   * started (the first thread, the second thread, then main's own call), followed
   * by its drain loop, which prints the size and drains the queue exactly as
   * clear_queue does.  Returns the size it prints and the values it prints.
   */
  method QueueMain() returns (size: nat, drained: seq<int>)
    ensures size == 3 * Count
    ensures drained == Range(0, 3 * Count)
  {
    var qu := new AtomicQueue<int>();
    AddInQueue(qu, 0, Count);
    AddInQueue(qu, Count, 2 * Count);
    AddInQueue(qu, 2 * Count, 3 * Count);
    RangeConcat(0, Count, 2 * Count);
    RangeConcat(0, 2 * Count, 3 * Count);
    size, drained := ClearQueue(qu);
  }
}
