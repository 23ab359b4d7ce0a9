/**
 * A fixed-capacity FIFO queue backed by a sequence (common/queue.go).
 * Every operation is a pure function returning the updated queue; a nil
 * item or a nil error of the source becomes `None`.
 */
module BoundedQueue {
  import opened Wrappers

  /** The single error value the queue produces (QueueFullError). */
  datatype Error = QueueFullError

  datatype Queue<T> = Queue(capacity: int, items: seq<T>)

  /** The representation invariant: never more items than the capacity. */
  predicate Valid<T>(q: Queue<T>)
  {
    |q.items| <= q.capacity
  }

  /** `make` with a negative capacity panics, so the capacity is required to be non-negative. */
  function NewQueue<T>(capacity: int): (q: Queue<T>)
    requires capacity >= 0
    ensures Valid(q) && IsEmpty(q)
    ensures q.capacity == capacity
  {
    Queue(capacity, [])
  }

  /** The queue holds no item. */
  predicate IsEmpty<T>(q: Queue<T>): (empty: bool)
    ensures empty <==> q.items == []
  {
    |q.items| == 0
  }

  /**
   * The length has reached the capacity. Under the invariant that means no
   * room for one more item; a full queue always satisfies the invariant.
   */
  predicate IsFull<T>(q: Queue<T>): (full: bool)
    ensures Valid(q) ==> (full <==> |q.items| + 1 > q.capacity)
    ensures full ==> Valid(q)
  {
    |q.items| == q.capacity
  }

  /** Appends at the tail, or reports QueueFullError and leaves the queue as it was. */
  function Enqueue<T>(q: Queue<T>, item: T): (r: (Queue<T>, Option<Error>))
    ensures r.0.capacity == q.capacity
    ensures IsFull(q) <==> r.1 == Some(QueueFullError)
    ensures IsFull(q) ==> r.0 == q
    ensures !IsFull(q) ==> r.1 == None && r.0.items == q.items + [item]
    ensures Valid(q) ==> Valid(r.0)
  {
    if IsFull(q) then (q, Some(QueueFullError))
    else (q.(items := q.items + [item]), None)
  }

  /** Removes and returns the head; on an empty queue returns None and changes nothing. */
  function Dequeue<T>(q: Queue<T>): (r: (Queue<T>, Option<T>))
    ensures r.0.capacity == q.capacity
    ensures IsEmpty(q) <==> r.1 == None
    ensures IsEmpty(q) ==> r.0 == q
    ensures !IsEmpty(q) ==> r.1 == Some(q.items[0]) && [q.items[0]] + r.0.items == q.items
    ensures Valid(q) ==> Valid(r.0)
  {
    if IsEmpty(q) then (q, None)
    else (q.(items := q.items[1..]), Some(q.items[0]))
  }

  /** The head without removing it; None on an empty queue. */
  function Peek<T>(q: Queue<T>): (r: Option<T>)
    ensures IsEmpty(q) <==> r == None
    ensures r.Some? ==> |q.items| > 0 && r.value == q.items[0]
    ensures r == Dequeue(q).1
  {
    if IsEmpty(q) then None else Some(q.items[0])
  }

  /**
   * FIFO: on a non-empty queue with room, enqueueing then dequeueing gives
   * the same head and the same queue as dequeueing then enqueueing.
   */
  lemma EnqueueDequeueCommute<T>(q: Queue<T>, item: T)
    requires Valid(q) && !IsEmpty(q) && !IsFull(q)
    ensures Dequeue(Enqueue(q, item).0).1 == Dequeue(q).1
    ensures Dequeue(Enqueue(q, item).0).0 == Enqueue(Dequeue(q).0, item).0
  {
    assert (q.items + [item])[1..] == q.items[1..] + [item];
  }

  /** Enqueues every item of `xs` in order, ignoring refusals. */
  function EnqueueAll<T>(q: Queue<T>, xs: seq<T>): Queue<T>
    decreases |xs|
  {
    if xs == [] then q else EnqueueAll(Enqueue(q, xs[0]).0, xs[1..])
  }

  /** Dequeues until empty and returns the items in the order they came out. */
  function DrainAll<T>(q: Queue<T>): seq<T>
    decreases |q.items|
  {
    if IsEmpty(q) then [] else [q.items[0]] + DrainAll(Dequeue(q).0)
  }

  /** Items enqueued into a queue with room for all of them come back out in the same order. */
  lemma {:induction false} FifoRoundTrip<T>(q: Queue<T>, xs: seq<T>)
    requires |q.items| + |xs| <= q.capacity
    ensures DrainAll(EnqueueAll(q, xs)) == q.items + xs
    decreases |xs|
  {
    if xs == [] {
      DrainAllItems(q);
    } else {
      var q1 := Enqueue(q, xs[0]).0;
      assert q1.items == q.items + [xs[0]];
      FifoRoundTrip(q1, xs[1..]);
      assert q.items + [xs[0]] + xs[1..] == q.items + xs;
    }
  }

  /** Draining returns exactly the items, head first. */
  lemma {:induction false} DrainAllItems<T>(q: Queue<T>)
    ensures DrainAll(q) == q.items
    decreases |q.items|
  {
    if !IsEmpty(q) {
      DrainAllItems(Dequeue(q).0);
    }
  }

  /** Filling a new queue of capacity n with n items, then draining it, gives the items back. */
  lemma NewQueueRoundTrip<T>(n: nat, xs: seq<T>)
    requires |xs| == n
    ensures IsFull(EnqueueAll(NewQueue<T>(n), xs))
    ensures DrainAll(EnqueueAll(NewQueue<T>(n), xs)) == xs
  {
    FifoRoundTrip(NewQueue<T>(n), xs);
    EnqueueAllLength(NewQueue<T>(n), xs);
  }

  /** With enough room, every enqueue succeeds, so the length grows by |xs|. */
  lemma {:induction false} EnqueueAllLength<T>(q: Queue<T>, xs: seq<T>)
    requires |q.items| + |xs| <= q.capacity
    ensures EnqueueAll(q, xs).capacity == q.capacity
    ensures |EnqueueAll(q, xs).items| == |q.items| + |xs|
    decreases |xs|
  {
    if xs != [] {
      EnqueueAllLength(Enqueue(q, xs[0]).0, xs[1..]);
    }
  }
}
