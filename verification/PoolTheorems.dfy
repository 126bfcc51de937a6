/** The guarantees of the worker pool, for every reachable state and any number of workers. */
module PoolTheorems {
  import opened WorkerPool
  import opened PoolInvariant

  /**
   No wake-up is lost: if something is queued while a worker sleeps on for_data, some
   worker is already awake on its way back into q_get, and its next segment takes the
   oldest item. This holds although q_put signals before it finds the queue full, although
   one signal may wake several waiters, and whatever spurious wake-ups happen.
   */
  lemma NoLostWakeup(s: State)
    requires Reachable(s)
    ensures |Those(s.workers, Asleep)| <= s.q.waiters
    ensures Those(s.workers, Asleep) != {} ==> |s.q.items| <= |Those(s.workers, Awake)|
    ensures Those(s.workers, Asleep) != {} && s.q.items != [] ==>
      exists t :: t in Those(s.workers, Awake) && Enabled(s, Worker(t, Get))
               && Step(s, Worker(t, Get)).workers[t] == Got(s.q.items[0])
  {
    ReachableInv(s);
    if Those(s.workers, Asleep) != {} && s.q.items != [] {
      var t :| t in Those(s.workers, Awake);
      assert Enabled(s, Worker(t, Get));
    }
  }

  /**
   Whenever thread_info.mutex is free, `count` is the number of workers that have not
   retired and `free` the number between their +1 and their -1; at all times neither
   counter wraps and the live workers stay below MAXTHREAD.
   */
  lemma CountersAreExact(s: State)
    requires Reachable(s)
    ensures s.free == |Those(s.workers, Free)|
    ensures Unlocked(s) ==> s.count == |Those(s.workers, Live)|
    ensures s.free <= s.count < MAXTHREAD
    ensures |Those(s.workers, Live)| < MAXTHREAD
  {
    ReachableInv(s);
    FreeAtMostCount(s);
  }

  /** Every counter update is the plain sum: the unsigned arithmetic never wraps. */
  lemma CountersNeverWrap(s: State, e: Event)
    requires Reachable(s) && Enabled(s, e)
    ensures match e
      case Main(LeaveInit) => Step(s, e).count == s.count + |s.listener.born|
      case Worker(_, Announce) => Step(s, e).free == s.free + 1
      case Worker(_, MarkFree) => Step(s, e).free == s.free + 1
      case Worker(_, MarkBusy) => Step(s, e).free == s.free - 1
      case Worker(_, Retire) => Step(s, e).count == s.count - 1
      case _ => Step(s, e).free == s.free && Step(s, e).count == s.count
  {
    ReachableInv(s);
    match e
    case Main(l) =>
    case Worker(t, w) => WorkerNeverWraps(s, t, w);
  }

  lemma WorkerNeverWraps(s: State, t: nat, w: WorkerEvent)
    requires CountersExact(s) && t in s.workers && WorkerEnabled(s, s.workers[t], w)
    ensures var s' := StepWorker(s, t, w);
      && s'.free == (if w.Announce? || w.MarkFree? then s.free + 1 else if w.MarkBusy? then s.free - 1 else s.free)
      && s'.count == (if w.Retire? then s.count - 1 else s.count)
  {
    FreeAtMostCount(s);
    if w.MarkBusy? {
      MemberCounts(s.workers, t, Free);
    } else if w.Retire? {
      MemberCounts(s.workers, t, Live);
    }
  }

  /** The workers that hold an open socket. */
  function Holders(s: State, fd: int): set<nat> {
    set t | t in s.workers && Holds(s, t, fd)
  }

  /** In how many places the socket fd is kept. */
  function Places(s: State, fd: int): nat {
    (if ListenerHolds(s, fd) then 1 else 0) + multiset(s.q.items)[fd] + |Holders(s, fd)|
  }

  /**
   Each accepted socket is open in exactly one place (the listener's hand, the ring, one
   worker), or was closed once by the listener or once by a worker; nothing closed is
   still kept anywhere.
   */
  lemma SocketsConserved(s: State, fd: int)
    requires Reachable(s) && fd >= 0
    ensures Places(s, fd) == if fd in s.open then 1 else 0
    ensures s.accepted[fd] == s.droppedSocks[fd] + s.servedSocks[fd] + Places(s, fd)
  {
    ReachableInv(s);
    if t: nat :| Holds(s, t, fd) {
      assert Holders(s, fd) == {t};
      assert !Queued(s, fd) && !ListenerHolds(s, fd);
    } else {
      assert Holders(s, fd) == {};
      assert Queued(s, fd) ==> !ListenerHolds(s, fd);
    }
  }

  /** What is closed was open: no descriptor is closed twice. */
  lemma ClosesOnlyOpenSockets(s: State, e: Event)
    requires Reachable(s) && Enabled(s, e)
    ensures e == Main(Drop) ==> s.listener.sock in s.open
    ensures e.Worker? && e.w == Close ==> s.workers[e.t].sock in s.open
  {
    ReachableInv(s);
    if e == Main(Drop) {
      assert ListenerHolds(s, s.listener.sock);
    } else if e.Worker? && e.w == Close {
      assert Holds(s, e.t, s.workers[e.t].sock);
    }
  }

  /**
   The queue is first in, first out over the whole run, and the workers that a -1 told to
   leave are as many as the -1s taken out of it.
   */
  lemma OrdersRetireOneWorkerEach(s: State)
    requires Reachable(s)
    ensures s.puts == s.gets + s.q.items
    ensures |Those(s.workers, Ordered)| == multiset(s.gets)[ORDER]
    ensures multiset(s.puts)[ORDER] == multiset(s.q.items)[ORDER] + |Those(s.workers, Ordered)|
  {
    ReachableInv(s);
    assert multiset(s.puts) == multiset(s.gets) + multiset(s.q.items);
  }
}
