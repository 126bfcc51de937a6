/** What every run of the worker pool keeps, and what that means for its clients. */
module PoolInvariant {
  import opened SynQueue
  import Sets
  import opened WorkerPool

  // ---- The invariant, one concern at a time ----

  /**
   Every sleeper is accounted for in n_wait_dt, and while somebody sleeps each queued
   item has a woken worker on its way to it.
   */
  ghost predicate WakeupsKept(s: State) {
    && |Those(s.workers, Asleep)| <= s.q.waiters
    && (|Those(s.workers, Asleep)| > 0 ==> |s.q.items| <= |Those(s.workers, Awake)|)
  }

  /** The workers a pending init_threads has created but not yet added to `count`. */
  function Uncounted(s: State): set<nat> {
    if s.listener.Spawning? then s.listener.born else {}
  }

  ghost predicate CountersExact(s: State) {
    && Uncounted(s) <= s.workers.Keys
    && (forall t :: t in Uncounted(s) ==> s.workers[t].Starting? || s.workers[t] == Leaving(false))
    && s.free == |Those(s.workers, Free)|
    && s.count + |Uncounted(s)| == |Those(s.workers, Live)|
    && s.count < MAXTHREAD
    && (s.listener.Spawning? ==> s.count + |s.listener.born| + s.listener.left < MAXTHREAD)
    && (s.listener.Launching? ==> s.listener.n <= MAXTHREAD)
  }

  /** Worker t is responsible for closing fd. */
  predicate Holds(s: State, t: nat, fd: int) {
    t in s.workers && fd >= 0 && (s.workers[t] == Got(fd) || s.workers[t] == Serving(fd))
  }

  predicate ListenerHolds(s: State, fd: int) {
    s.listener == PuttingSock(fd) || s.listener == Dropping(fd)
  }

  predicate Queued(s: State, fd: int) {
    fd >= 0 && fd in s.q.items
  }

  /** Every open socket is in exactly one place, and everything held is open. */
  ghost predicate CustodyExact(s: State) {
    && (forall fd :: ListenerHolds(s, fd) ==> fd in s.open && !Queued(s, fd))
    && (forall fd :: Queued(s, fd) ==> fd in s.open && multiset(s.q.items)[fd] == 1)
    && (forall t, fd :: Holds(s, t, fd) ==> fd in s.open && !Queued(s, fd) && !ListenerHolds(s, fd))
    && (forall t, u, fd :: Holds(s, t, fd) && Holds(s, u, fd) ==> t == u)
    && (forall fd :: fd in s.open ==> ListenerHolds(s, fd) || Queued(s, fd) || exists t :: Holds(s, t, fd))
    && s.accepted == s.droppedSocks + s.servedSocks + multiset(s.open)
    && (forall fd :: fd in s.open ==> fd >= 0)
    && (forall t :: t in s.workers && s.workers[t].Serving? ==> s.workers[t].sock >= 0)
  }

  /** Values leave the queue in the order they entered it. */
  ghost predicate OrderKept(s: State) {
    && s.puts == s.gets + s.q.items
    && |s.q.items| <= s.q.size
  }

  /** Dequeued termination orders and ordered retirements are equal in number. */
  ghost predicate OrdersObeyed(s: State) {
    && |Those(s.workers, Ordered)| == multiset(s.gets)[ORDER]
    && (forall v :: v in s.q.items ==> v >= ORDER)
    && (s.listener.PuttingSock? ==> s.listener.sock >= 0)
  }

  ghost predicate Inv(s: State) {
    WakeupsKept(s) && CountersExact(s) && CustodyExact(s) && OrderKept(s) && OrdersObeyed(s)
  }

  // ---- Moving one worker, or waking several ----

  function Weight(workers: map<nat, Phase>, t: nat, g: Group): nat {
    if t in workers && Belongs(workers[t], g) then 1 else 0
  }

  lemma SizeWithout(a: set<nat>, t: nat)
    ensures |a - {t}| == |a| - if t in a then 1 else 0
  {
    if t !in a {
      assert a - {t} == a;
    }
  }

  lemma OthersStay(workers: map<nat, Phase>, t: nat, p: Phase, g: Group)
    ensures Those(workers[t := p], g) - {t} == Those(workers, g) - {t}
  {
    forall u | u != t
      ensures u in Those(workers[t := p], g) <==> u in Those(workers, g)
    {
      MemberIs(workers, u, g);
      MemberIs(workers[t := p], u, g);
    }
  }

  lemma MemberIs(workers: map<nat, Phase>, t: nat, g: Group)
    ensures t in Those(workers, g) <==> t in workers && Belongs(workers[t], g)
  {
  }

  /** Moving one worker changes the size of a group by what that worker alone counts for. */
  lemma Moved(workers: map<nat, Phase>, t: nat, p: Phase, g: Group)
    ensures |Those(workers[t := p], g)|
         == |Those(workers, g)| - Weight(workers, t, g) + Weight(workers[t := p], t, g)
  {
    var before, after := Those(workers, g), Those(workers[t := p], g);
    OthersStay(workers, t, p, g);
    MemberIs(workers, t, g);
    MemberIs(workers[t := p], t, g);
    SizeWithout(before, t);
    SizeWithout(after, t);
  }

  lemma RousedGroup(workers: map<nat, Phase>, woken: set<nat>, g: Group)
    requires woken <= Those(workers, Asleep)
    ensures Those(Rouse(workers, woken), g)
         == if g == Asleep then Those(workers, g) - woken
            else if g == Awake then Those(workers, g) + woken
            else Those(workers, g)
  {
    forall t | t in workers
      ensures Belongs(Rouse(workers, woken)[t], g)
         <==> if t in woken then g == Awake || g == Free || g == Live else Belongs(workers[t], g)
    {
    }
  }

  lemma Roused(workers: map<nat, Phase>, woken: set<nat>)
    requires woken <= Those(workers, Asleep)
    ensures |Those(Rouse(workers, woken), Asleep)| == |Those(workers, Asleep)| - |woken|
    ensures |Those(Rouse(workers, woken), Awake)| == |Those(workers, Awake)| + |woken|
  {
    RousedGroup(workers, woken, Asleep);
    RousedGroup(workers, woken, Awake);
    Sets.SubsetSize(woken, Those(workers, Asleep));
    assert Those(workers, Awake) !! woken;
  }

  lemma MemberCounts(workers: map<nat, Phase>, t: nat, g: Group)
    requires t in workers && Belongs(workers[t], g)
    ensures |Those(workers, g)| >= 1
  {
    assert t in Those(workers, g);
  }

  // ---- Wake-ups ----

  lemma ListenerKeepsWakeups(s: State, e: ListenerEvent)
    requires WakeupsKept(s) && ListenerEnabled(s, e)
    ensures WakeupsKept(StepListener(s, e))
  {
    match e
    case Put(woken) => Roused(s.workers, woken);
    case Create(t, _) =>
      Moved(s.workers, t, Starting, Asleep);
      Moved(s.workers, t, Starting, Awake);
    case _ =>
  }

  lemma WorkerKeepsWakeups(s: State, t: nat, e: WorkerEvent)
    requires WakeupsKept(s) && t in s.workers && WorkerEnabled(s, s.workers[t], e)
    ensures WakeupsKept(StepWorker(s, t, e))
  {
    var p := NextPhase(s.q, s.workers[t], e);
    Moved(s.workers, t, p, Asleep);
    Moved(s.workers, t, p, Awake);
  }

  // ---- Thread counters ----

  lemma FreeAtMostCount(s: State)
    requires CountersExact(s)
    ensures s.free <= s.count
  {
    var free, live := Those(s.workers, Free), Those(s.workers, Live);
    forall t | t in free
      ensures t in live && t !in Uncounted(s)
    {
      MemberIs(s.workers, t, Free);
      MemberIs(s.workers, t, Live);
    }
    Sets.SubsetSize(free, live - Uncounted(s));
    Sets.SubsetSize(Uncounted(s), live);
  }

  lemma CreateKeepsCounters(s: State, t: nat, ok: bool)
    requires CountersExact(s) && ListenerEnabled(s, Create(t, ok))
    ensures CountersExact(StepListener(s, Create(t, ok)))
  {
    Moved(s.workers, t, Starting, Free);
    Moved(s.workers, t, Starting, Live);
  }

  lemma ListenerKeepsCounters(s: State, e: ListenerEvent)
    requires CountersExact(s) && ListenerEnabled(s, e)
    ensures CountersExact(StepListener(s, e))
  {
    match e
    case Put(woken) =>
      RousedGroup(s.workers, woken, Free);
      RousedGroup(s.workers, woken, Live);
    case Create(t, ok) => CreateKeepsCounters(s, t, ok);
    case _ =>
  }

  lemma WorkerKeepsCounters(s: State, t: nat, e: WorkerEvent)
    requires CountersExact(s) && t in s.workers && WorkerEnabled(s, s.workers[t], e)
    ensures CountersExact(StepWorker(s, t, e))
  {
    var p := NextPhase(s.q, s.workers[t], e);
    FreeAtMostCount(s);
    Moved(s.workers, t, p, Free);
    Moved(s.workers, t, p, Live);
    if e.MarkBusy? {
      MemberCounts(s.workers, t, Free);
    } else if e.Retire? {
      MemberCounts(s.workers, t, Live);
    }
  }

  // ---- Order of the queue, and obedience to termination orders ----

  lemma StepKeepsOrder(s: State, e: Event)
    requires OrderKept(s) && Enabled(s, e)
    ensures OrderKept(Step(s, e))
  {
  }

  lemma ListenerKeepsOrders(s: State, e: ListenerEvent)
    requires OrdersObeyed(s) && ListenerEnabled(s, e)
    ensures OrdersObeyed(StepListener(s, e))
  {
    match e
    case Put(woken) => RousedGroup(s.workers, woken, Ordered);
    case Create(t, _) => Moved(s.workers, t, Starting, Ordered);
    case _ =>
  }

  lemma WorkerKeepsOrders(s: State, t: nat, e: WorkerEvent)
    requires OrdersObeyed(s) && t in s.workers && WorkerEnabled(s, s.workers[t], e)
    ensures OrdersObeyed(StepWorker(s, t, e))
  {
    Moved(s.workers, t, NextPhase(s.q, s.workers[t], e), Ordered);
    if e.Get? && s.q.items != [] {
      var val := s.q.items[0];
      assert val in s.q.items;
      assert multiset(s.gets + [val])[ORDER] == multiset(s.gets)[ORDER] + multiset{val}[ORDER];
      assert forall v :: v in s.q.items[1..] ==> v in s.q.items;
    }
  }

  // ---- Custody of sockets ----

  /** Nothing relevant to custody changed. */
  lemma CustodyUntouched(s: State, s': State)
    requires CustodyExact(s)
    requires s'.open == s.open && s'.q.items == s.q.items
    requires s'.accepted == s.accepted && s'.droppedSocks == s.droppedSocks && s'.servedSocks == s.servedSocks
    requires forall fd :: ListenerHolds(s', fd) <==> ListenerHolds(s, fd)
    requires forall t, fd :: Holds(s', t, fd) <==> Holds(s, t, fd)
    requires forall t :: t in s'.workers && s'.workers[t].Serving? ==> s'.workers[t].sock >= 0
    ensures CustodyExact(s')
  {
    forall fd | fd in s'.open
      ensures ListenerHolds(s', fd) || Queued(s', fd) || exists t :: Holds(s', t, fd)
    {
      assert ListenerHolds(s, fd) || Queued(s, fd) || exists t :: Holds(s, t, fd);
    }
  }

  lemma PutKeepsCustody(s: State, woken: set<nat>)
    requires CustodyExact(s) && OrdersObeyed(s) && ListenerEnabled(s, Put(woken))
    ensures CustodyExact(StepPut(s, woken))
  {
    var s' := StepPut(s, woken);
    RousedHolds(s, s', woken);
    if PutSegment(s.q, PutValue(s.listener)).full {
      CustodyUntouched(s, s');
    } else {
      PutInKeepsCustody(s, s');
    }
  }

  lemma RousedHolds(s: State, s': State, woken: set<nat>)
    requires woken <= Those(s.workers, Asleep) && s'.workers == Rouse(s.workers, woken)
    ensures forall t, fd :: Holds(s', t, fd) <==> Holds(s, t, fd)
    ensures forall t :: t in s'.workers && s'.workers[t].Serving? ==> s'.workers[t] == s.workers[t]
  {
  }

  lemma PutInKeepsCustody(s: State, s': State)
    requires CustodyExact(s) && OrdersObeyed(s)
    requires s.listener.PuttingOrder? || s.listener.PuttingSock?
    requires s'.open == s.open && s'.q.items == s.q.items + [PutValue(s.listener)]
    requires s'.accepted == s.accepted && s'.droppedSocks == s.droppedSocks && s'.servedSocks == s.servedSocks
    requires !s'.listener.PuttingSock? && !s'.listener.Dropping?
    requires forall t, fd :: Holds(s', t, fd) <==> Holds(s, t, fd)
    requires forall t :: t in s'.workers && s'.workers[t].Serving? ==> s'.workers[t].sock >= 0
    ensures CustodyExact(s')
  {
    var val := PutValue(s.listener);
    assert multiset(s'.q.items) == multiset(s.q.items) + multiset{val};
    assert forall fd :: ListenerHolds(s, fd) <==> fd == val && s.listener.PuttingSock?;
    assert forall fd :: Queued(s', fd) <==> Queued(s, fd) || (fd == val && fd >= 0);
  }

  lemma AcceptKeepsCustody(s: State, fd: int)
    requires CustodyExact(s) && ListenerEnabled(s, Accept(fd))
    ensures CustodyExact(StepListener(s, Accept(fd)))
  {
    var s' := StepListener(s, Accept(fd));
    assert forall t, fd :: Holds(s', t, fd) <==> Holds(s, t, fd);
    if fd < 0 {
      CustodyUntouched(s, s');
    }
  }

  lemma DropKeepsCustody(s: State)
    requires CustodyExact(s) && ListenerEnabled(s, Drop)
    ensures CustodyExact(StepListener(s, Drop))
  {
    assert ListenerHolds(s, s.listener.sock);
    assert forall t, fd :: Holds(StepListener(s, Drop), t, fd) <==> Holds(s, t, fd);
  }

  lemma ListenerKeepsCustody(s: State, e: ListenerEvent)
    requires CustodyExact(s) && OrdersObeyed(s) && ListenerEnabled(s, e)
    ensures CustodyExact(StepListener(s, e))
  {
    match e
    case Put(woken) => PutKeepsCustody(s, woken);
    case Accept(fd) => AcceptKeepsCustody(s, fd);
    case Drop => DropKeepsCustody(s);
    case _ => CustodyUntouched(s, StepListener(s, e));
  }

  lemma {:induction false} GetKeepsCustody(s: State, t: nat)
    requires CustodyExact(s) && t in s.workers && WorkerEnabled(s, s.workers[t], Get)
    ensures CustodyExact(StepWorker(s, t, Get))
  {
    var s' := StepWorker(s, t, Get);
    if s.q.items == [] {
      CustodyUntouched(s, s');
    } else {
      var val := s.q.items[0];
      assert s.q.items == [val] + s'.q.items;
      assert multiset(s.q.items) == multiset{val} + multiset(s'.q.items);
      assert forall u, fd :: Holds(s', u, fd) <==> if u == t then fd == val && fd >= 0 else Holds(s, u, fd);
      assert forall fd :: Queued(s', fd) <==> Queued(s, fd) && fd != val;
      assert forall fd :: ListenerHolds(s', fd) <==> ListenerHolds(s, fd);
      forall fd | fd in s'.open
        ensures ListenerHolds(s', fd) || Queued(s', fd) || exists u :: Holds(s', u, fd)
      {
        if fd == val {
          assert Holds(s', t, fd);
        } else if u: nat :| Holds(s, u, fd) {
          assert Holds(s', u, fd);
        }
      }
    }
  }

  lemma {:induction false} CloseKeepsCustody(s: State, t: nat)
    requires CustodyExact(s) && t in s.workers && WorkerEnabled(s, s.workers[t], Close)
    ensures CustodyExact(StepWorker(s, t, Close))
  {
    var s' := StepWorker(s, t, Close);
    var sock := s.workers[t].sock;
    assert Holds(s, t, sock);
    assert forall u, fd :: Holds(s', u, fd) <==> u != t && Holds(s, u, fd);
    assert sock in s.open && s'.open == s.open - {sock};
    assert multiset(s.open) == multiset(s'.open) + multiset{sock};
    assert s'.accepted == s'.droppedSocks + s'.servedSocks + multiset(s'.open);
    assert forall fd :: Queued(s', fd) <==> Queued(s, fd);
    assert forall fd :: ListenerHolds(s', fd) <==> ListenerHolds(s, fd);
    forall fd | fd in s'.open
      ensures ListenerHolds(s', fd) || Queued(s', fd) || exists u :: Holds(s', u, fd)
    {
      assert fd != sock;
      if u: nat :| Holds(s, u, fd) {
        assert u != t;
        assert Holds(s', u, fd);
      } else {
        assert ListenerHolds(s, fd) || Queued(s, fd);
      }
    }
  }

  lemma WorkerKeepsCustody(s: State, t: nat, e: WorkerEvent)
    requires CustodyExact(s) && t in s.workers && WorkerEnabled(s, s.workers[t], e)
    ensures CustodyExact(StepWorker(s, t, e))
  {
    match e
    case Get => GetKeepsCustody(s, t);
    case Close => CloseKeepsCustody(s, t);
    case _ => CustodyUntouched(s, StepWorker(s, t, e));
  }

  // ---- Every run ----

  lemma StepKeepsInv(s: State, e: Event)
    requires Inv(s) && Enabled(s, e)
    ensures Inv(Step(s, e))
  {
    StepKeepsOrder(s, e);
    match e
    case Main(l) =>
      ListenerKeepsWakeups(s, l);
      ListenerKeepsCounters(s, l);
      ListenerKeepsOrders(s, l);
      ListenerKeepsCustody(s, l);
    case Worker(t, w) =>
      WorkerKeepsWakeups(s, t, w);
      WorkerKeepsCounters(s, t, w);
      WorkerKeepsOrders(s, t, w);
      WorkerKeepsCustody(s, t, w);
  }

  lemma {:induction false} RunKeepsInv(s: State, events: seq<Event>, s': State)
    requires Inv(s) && Run(s, events, s')
    ensures Inv(s')
    decreases |events|
  {
    if events != [] {
      StepKeepsInv(s, events[0]);
      RunKeepsInv(Step(s, events[0]), events[1..], s');
    }
  }

  lemma ReachableInv(s: State)
    requires Reachable(s)
    ensures Inv(s)
  {
    assert Inv(Initial());
    var events :| Run(Initial(), events, s);
    RunKeepsInv(Initial(), events, s);
  }
}
