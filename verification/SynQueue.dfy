/**
 The bounded queue of accepted sockets (queue.c).

 `Queue` is the value the mutex protects. `GetSegment` and `PutSegment` are what one
 hold of the mutex does to it; a call of `q_get` that has to wait is several segments,
 since `pthread_cond_wait` gives the mutex up in between. `RingQueue` is the ring
 buffer itself, and each of its methods is proved to do exactly one segment.
 */
module SynQueue {

  datatype Queue = Queue(size: nat, items: seq<int>, waiters: int)

  datatype GetResult = Blocked | Taken(val: int)

  datatype PutResult = PutResult(q: Queue, signalled: bool, full: bool)

  /** One pass over the head of the wait loop of q_get: take the oldest item or block. */
  function GetSegment(q: Queue): (Queue, GetResult) {
    if q.items == [] then
      (q.(waiters := q.waiters + 1), Blocked)
    else
      (q.(items := q.items[1..]), Taken(q.items[0]))
  }

  /** The whole of q_put: the waiter is signalled before the queue is found to be full. */
  function PutSegment(q: Queue, val: int): PutResult {
    var signalled := q.waiters > 0;
    var q' := if signalled then q.(waiters := q.waiters - 1) else q;
    if |q.items| == q.size then
      PutResult(q', signalled, true)
    else
      PutResult(q'.(items := q.items + [val]), signalled, false)
  }

  /** Where index x of a ring of n cells lies, when x is less than two turns. */
  function Slot(x: nat, n: nat): nat
    requires x < 2 * n
  {
    if x < n then x else x - n
  }

  /** The source's `% size` is that index. */
  lemma RingStep(x: nat, n: nat)
    requires x < 2 * n
    ensures x % n == Slot(x, n)
  {
    if x >= n {
      assert x / n == 1;
    }
  }

  /** The `num` cells of a ring starting at `head`, oldest first. */
  function RingItems(cells: seq<int>, head: nat, num: nat): (items: seq<int>)
    requires head < |cells|
    requires num <= |cells|
    ensures |items| == num
    ensures forall i :: 0 <= i < num ==> items[i] == cells[Slot(head + i, |cells|)]
  {
    seq(num, i requires 0 <= i < num => cells[Slot(head + i, |cells|)])
  }

  /** Freeing the head cell leaves the rest of the items. */
  lemma RingPop(cells: seq<int>, head: nat, num: nat)
    requires head < |cells|
    requires 0 < num <= |cells|
    ensures RingItems(cells, head, num)[0] == cells[head]
    ensures RingItems(cells, Slot(head + 1, |cells|), num - 1) == RingItems(cells, head, num)[1..]
  {
  }

  /** Writing the cell after the last item appends, as long as a cell is free. */
  lemma RingPush(cells: seq<int>, head: nat, num: nat, val: int)
    requires head < |cells|
    requires num < |cells|
    ensures RingItems(cells[Slot(head + num, |cells|) := val], head, num + 1)
         == RingItems(cells, head, num) + [val]
  {
  }

  /** The ring buffer; `num`, `head`, `tail` and `nWaitDt` are the source's own fields. */
  class RingQueue {
    const size: int
    var num: int
    var head: int
    var tail: int
    var nWaitDt: int
    const data: array<int>

    ghost predicate Valid()
      reads this, data
    {
      && 0 < size == data.Length
      && 0 <= num <= size
      && 0 <= head < size
      && tail == Slot(head + num, size)
    }

    /** The abstract queue this ring stands for. */
    ghost function Abstract(): Queue
      requires Valid()
      reads this, data
    {
      Queue(size, RingItems(data[..], head, num), nWaitDt)
    }

    /** q_init, when the allocation succeeds. */
    constructor (size: int)
      requires 0 < size
      ensures Valid() && fresh(data)
      ensures Abstract() == Queue(size, [], 0)
    {
      this.size := size;
      num, head, tail, nWaitDt := 0, 0, 0, 0;
      data := new int[size];
    }

    /** q_get from the point where the mutex is held up to where it is given up. */
    method Get() returns (r: GetResult)
      requires Valid()
      modifies this
      ensures Valid()
      ensures (Abstract(), r) == GetSegment(old(Abstract()))
    {
      if num == 0 {
        nWaitDt := nWaitDt + 1;
        return Blocked;
      }
      RingPop(data[..], head, num);
      RingStep(head + 1, size);
      r := Taken(data[head]);
      head := (head + 1) % size;
      num := num - 1;
    }

    /** q_put; `error` is its return value, `signalled` tells whether it woke the waiters. */
    method Put(val: int) returns (error: int, signalled: bool)
      requires Valid()
      modifies this, data
      ensures Valid()
      ensures var r := PutSegment(old(Abstract()), val);
        Abstract() == r.q && signalled == r.signalled && error == if r.full then 1 else 0
    {
      signalled := nWaitDt > 0;
      if signalled {
        nWaitDt := nWaitDt - 1;
      }
      if num == size {
        return 1, signalled;
      }
      RingPush(data[..], head, num, val);
      RingStep(tail + 1, size);
      data[tail] := val;
      tail := (tail + 1) % size;
      num := num + 1;
      error := 0;
    }
  }
}
