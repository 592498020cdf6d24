/** A sequential model of the atomic FIFO (`nrf_atfifo`) both programs use as
    their event queue: a bounded first-in first-out queue whose put drops the
    item when the queue is full and whose get reports an empty queue instead
    of blocking. Interrupt safety, the reason the library exists, is not
    modelled: puts and gets are atomic steps. */
module Fifo {

  datatype Option<T> = None | Some(value: T)

  function Min(a: nat, b: nat): nat
  {
    if a <= b then a else b
  }

  /** The queue after one put: the item appended at the tail, or the queue
      unchanged (the item dropped) when it already holds `capacity` items. */
  function Put<T>(q: seq<T>, capacity: nat, x: T): seq<T>
  {
    if |q| < capacity then q + [x] else q
  }

  /** The queue after putting the items of `xs`, oldest first. */
  function PutAll<T>(q: seq<T>, capacity: nat, xs: seq<T>): seq<T>
    decreases |xs|
  {
    if xs == [] then q else Put(PutAll(q, capacity, xs[..|xs| - 1]), capacity, xs[|xs| - 1])
  }

  /** One get: the oldest item and the remaining queue, or `None` and the
      queue unchanged when it is empty. */
  function Take<T>(q: seq<T>): (Option<T>, seq<T>)
  {
    if q == [] then (None, q) else (Some(q[0]), q[1..])
  }

  /** The items a consumer obtains by getting until the queue reports empty. */
  function Drain<T>(q: seq<T>): seq<T>
    decreases |q|
  {
    if q == [] then []
    else
      var (x, rest) := Take(q);
      [x.value] + Drain(rest)
  }

  /** Overflow is lossy and drops the newest items: starting from a queue
      within capacity, a burst of puts keeps the queue's old items and then
      exactly the earliest items of the burst that still fit. */
  lemma {:induction false} PutAllKeepsEarliest<T>(q: seq<T>, capacity: nat, xs: seq<T>)
    requires |q| <= capacity
    ensures PutAll(q, capacity, xs) == q + xs[..Min(|xs|, capacity - |q|)]
    ensures |PutAll(q, capacity, xs)| <= capacity
    decreases |xs|
  {
    if xs != [] {
      var n := |xs|;
      var init := xs[..n - 1];
      PutAllKeepsEarliest(q, capacity, init);
      var m := Min(n - 1, capacity - |q|);
      assert init[..m] == xs[..m];
      if m < capacity - |q| {
        assert m == n - 1;
        assert xs[..m] + [xs[n - 1]] == xs[..n];
      }
    }
  }

  /** Getting until empty yields the queue's items in order. */
  lemma {:induction false} DrainYieldsContents<T>(q: seq<T>)
    ensures Drain(q) == q
    decreases |q|
  {
    if q != [] {
      DrainYieldsContents(q[1..]);
    }
  }

  /** First in, first out: items put into an empty queue come out in the order
      they were put, up to the capacity; the rest were dropped on put. */
  lemma FirstInFirstOut<T>(capacity: nat, xs: seq<T>)
    ensures Drain(PutAll([], capacity, xs)) == xs[..Min(|xs|, capacity)]
  {
    PutAllKeepsEarliest([], capacity, xs);
    DrainYieldsContents(PutAll([], capacity, xs));
  }

  /** The FIFO object, `NRF_ATFIFO_DEF(event_fifo, event_t, 10)`: its items,
      oldest first, and its fixed capacity. */
  class Queue<T> {
    const capacity: nat
    var items: seq<T>

    ghost predicate Valid()
      reads this
    {
      |items| <= capacity
    }

    /** `NRF_ATFIFO_INIT`: an empty queue of the given capacity. */
    constructor (capacity: nat)
      ensures Valid()
      ensures this.capacity == capacity && items == []
    {
      this.capacity := capacity;
      items := [];
    }

    /** `nrf_atfifo_alloc_put`: appends `x` when there is room; otherwise the
        put fails and the queue is unchanged. */
    method AllocPut(x: T) returns (ok: bool)
      requires Valid()
      modifies this
      ensures Valid()
      ensures ok <==> |old(items)| < capacity
      ensures items == if ok then old(items) + [x] else old(items)
    {
      ok := |items| < capacity;
      if ok {
        items := items + [x];
      }
    }

    /** `nrf_atfifo_get_free`: removes and returns the oldest item, or reports
        an empty queue and changes nothing. */
    method GetFree() returns (r: Option<T>)
      requires Valid()
      modifies this
      ensures Valid()
      ensures old(items) == [] ==> r == None && items == old(items)
      ensures old(items) != [] ==> r == Some(old(items)[0]) && items == old(items)[1..]
    {
      if items == [] {
        r := None;
      } else {
        r := Some(items[0]);
        items := items[1..];
      }
    }
  }
}
